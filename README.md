# wp-dev-tools package details, in Dafny

wp-dev-tools builds the "package details" document that a WordPress update
server hands out for a plugin or a theme. The generator reads the header
comment of the package's main source file (`Plugin Name: …`, `Version: …`),
splits the package's `readme.txt` into `== Title ==` sections, and merges
both with a slug, a timestamp and a download link. It then drops every empty
value and keeps the result for later calls.

This project models that engine, `src/PackageDetails/Generators/`, together
with the older plugin generator in `src/Package_Details/Generators/`. The
modules are:

- `Text`: PHP's `trim()`, PCRE's `\s` and ASCII case folding.
- `PhpArray`: PHP arrays with string keys, as ordered lists of key/value
  entries, and the operations the generator uses on them:
  - assignment (`$a[$k] = $v`);
  - lookup (`??`);
  - `array_replace` / `array_merge`;
  - `array_filter`, which drops `''`, `"0"` and `[]`.
- `HeaderExtraction`: `extract_header()`. The pattern
  `/^[ \t\/*#@]*Label:(.*)$/mi` is specified directly: a line start, a run
  of comment noise, the label up to ASCII case, a colon, and the rest of the
  line. PCRE's choice is the leftmost match start with the longest noise run
  that still lets the label match.
- `SectionParsing`: `section_data()`. The split on `/^\s*==([^=]+)==\s*$/m`
  is modelled line by line. A line is a delimiter when, without its white
  space, it is `==`, a non-empty title free of `=`, and `==`. The `for` loop
  over the split pieces is a method proved against the function it computes.
- `GeneratorInputs`: the inputs once they have been read (source path and
  text, optional readme text, optional url) and the accessors `basename()`,
  `readme()`, `download_url()`, plus the option choice in `json()`.
- `PluginDetails`, `ThemeDetails`: the two variants' header maps, slugs and
  additional data.
- `DetailsGenerator`: the merge and filter policy, the `headers()` loop, and
  a `Generator` class whose `memo` field is PHP's `$details` property.
- `LegacyPluginDetails`: the older `generate_data()`. It has the same
  headers and sections, with no timestamp and no download link.

The clock is a parameter: `now` is the string `date()` would return. Files
are not read; their contents are parameters.

Behaviour of the code worth noting:

- The noise before a label is only space, tab, `/`, `*`, `#` and `@`; no
  other white space may come before a label.
- `array_filter` drops the string `"0"` as well as empty values.
- A theme built without a slug gets the slug `''`, which the filter then
  drops.
- Header fields come in header-map order: for a plugin, `version` before
  `name`.

## Model

| member | source | states |
|---|---|---|
| Text.Lower | src/PackageDetails/Generators/DetailsGenerator.php:129 | the `i` flag maps each ASCII capital to its lower-case letter (code + 32) and leaves every other character alone |
| Text.SameLetter | src/PackageDetails/Generators/DetailsGenerator.php:129 | two characters match case-insensitively exactly when they are equal or are the two cases of one ASCII letter |
| Text.Trim | src/PackageDetails/Generators/DetailsGenerator.php:133 | trim() leaves no space, tab, LF, CR, NUL or vertical tab at either end and adds no character |
| Text.StripParts | src/PackageDetails/Generators/DetailsGenerator.php:133 | stripping only removes padding: the text is the stripped text with stripped characters on either side |
| Text.StripPadded | src/PackageDetails/Generators/DetailsGenerator.php:133 | stripping removes exactly the padding: padding around a text with unpadded ends gives that text back |
| PhpArray.Get | src/PackageDetails/Generators/ThemeDetailsGenerator.php:70 | `$a[$k] ?? …` finds nothing exactly when k is not a key of the array |
| PhpArray.GetAt | src/PackageDetails/Generators/ThemeDetailsGenerator.php:70 | in an array with each key once, looking up an entry's key finds that entry's value |
| PhpArray.Set | src/PackageDetails/Generators/DetailsGenerator.php:156 | `$a[$k] = $v`: a present key keeps its place, a new key goes last; k then holds v and every other key keeps its value |
| PhpArray.SetAppends | src/PackageDetails/Generators/DetailsGenerator.php:95 | assigning a key the array lacks appends exactly that entry |
| PhpArray.Dedup | src/PackageDetails/Generators/DetailsGenerator.php:77-84 | the merged key list, deduplicated: each key once, and the same keys |
| PhpArray.FirstIndex | src/PackageDetails/Generators/DetailsGenerator.php:77-84 | the position of a key's first occurrence: it is that key, and the key does not occur before it |
| PhpArray.FirstIndexIs | src/PackageDetails/Generators/DetailsGenerator.php:77-84 | an occurrence with none before it is the first occurrence |
| PhpArray.DedupOrder | src/PackageDetails/Generators/DetailsGenerator.php:77-84 | array_merge's key order: the deduplicated keys come in the order of their first occurrence |
| PhpArray.LastValueIsLast | src/PackageDetails/Generators/DetailsGenerator.php:60 | of several entries under one key, the last one written decides the value |
| PhpArray.DedupUnique | src/PackageDetails/Generators/DetailsGenerator.php:77-84 | keys that are already distinct stay as they are |
| PhpArray.Merge | src/PackageDetails/Generators/DetailsGenerator.php:60 | array_replace/array_merge: the keys are a's followed by b's, deduplicated; a key of b takes b's last value, any other keeps a's |
| PhpArray.MergeWellFormed | src/PackageDetails/Generators/DetailsGenerator.php:77-84 | merging into an array with each key once keeps each key once |
| PhpArray.UniqueConcat | src/PackageDetails/Generators/DetailsGenerator.php:77-84 | two lists of distinct keys with none in common are distinct together |
| PhpArray.Filter | src/PackageDetails/Generators/DetailsGenerator.php:61 | array_filter: no falsy value is left, the keys keep their order, and a key is kept exactly when its value is not falsy |
| HeaderExtraction.LineEnd | src/PackageDetails/Generators/DetailsGenerator.php:129 | `$` in multi-line mode: the first newline at or after a position, or the end of the text |
| HeaderExtraction.LineEndIs | src/PackageDetails/Generators/DetailsGenerator.php:129 | any position that ends the line in that sense is the line end |
| HeaderExtraction.NoiseRun | src/PackageDetails/Generators/DetailsGenerator.php:129 | `[ \t\/*#@]*` can run at most this far: every character in the run is noise and the next one is not |
| HeaderExtraction.NoiseBound | src/PackageDetails/Generators/DetailsGenerator.php:129 | no match has a longer noise run than the longest one |
| HeaderExtraction.GreedyRun | src/PackageDetails/Generators/DetailsGenerator.php:129 | backtracking the greedy run finds the longest run after which the label matches, or shows that none does |
| HeaderExtraction.MatchFrom | src/PackageDetails/Generators/DetailsGenerator.php:129 | from a line start: a match exists exactly when this finds one, and it has the longest noise run |
| HeaderExtraction.FirstMatch | src/PackageDetails/Generators/DetailsGenerator.php:132 | preg_match's scan: the earliest start that matches, with its longest run; or no start matches |
| HeaderExtraction.Capture | src/PackageDetails/Generators/DetailsGenerator.php:129 | `(.*)` never captures a newline |
| HeaderExtraction.ExtractHeader | src/PackageDetails/Generators/DetailsGenerator.php:126-135 | the header value never holds a newline and never starts or ends with white space |
| HeaderExtraction.ExtractHeaderNoMatch | src/PackageDetails/Generators/DetailsGenerator.php:134 | when no line matches, the value is '' |
| HeaderExtraction.ExtractHeaderIsMatch | src/PackageDetails/Generators/DetailsGenerator.php:132-133 | the value is the trimmed capture of the leftmost match with the longest noise run |
| HeaderExtraction.FirstMatchIs | src/PackageDetails/Generators/DetailsGenerator.php:132 | the scan finds exactly the leftmost, greedy match |
| HeaderExtraction.ExtractHeaderFirstMatchIsLeftmostGreedy | src/PackageDetails/Generators/DetailsGenerator.php:132 | what the scan finds is leftmost and greedy |
| HeaderExtraction.LeftmostGreedyOf | src/PackageDetails/Generators/DetailsGenerator.php:132 | whenever the pattern matches somewhere, a leftmost, greedy match exists |
| HeaderExtraction.MatchAtCaseInsensitive | src/PackageDetails/Generators/DetailsGenerator.php:129 | whether a line matches depends on the label only up to ASCII case |
| HeaderExtraction.ExtractHeaderCaseInsensitive | src/PackageDetails/Generators/DetailsGenerator.php:126-135 | labels that agree up to ASCII case extract the same value |
| HeaderExtraction.CaseInsensitiveMatch | src/PackageDetails/Generators/DetailsGenerator.php:129-133 | the case-insensitive agreement when the label matches |
| HeaderExtraction.CaseInsensitiveNoMatch | src/PackageDetails/Generators/DetailsGenerator.php:129-134 | the case-insensitive agreement when the label does not match |
| HeaderExtraction.GreedyCaseInsensitive | src/PackageDetails/Generators/DetailsGenerator.php:129 | the leftmost, greedy match is the same for labels that agree up to case |
| HeaderExtraction.LowerNewline | src/PackageDetails/Generators/DetailsGenerator.php:129 | case folding neither creates nor removes a newline |
| HeaderExtraction.MatchWithinLine | src/PackageDetails/Generators/DetailsGenerator.php:129 | a match lies within one line, from its start up to its colon |
| HeaderExtraction.MatchInPrefix | src/PackageDetails/Generators/DetailsGenerator.php:129 | a match that starts in the leading lines is unaffected by what follows them |
| HeaderExtraction.MatchInSuffix | src/PackageDetails/Generators/DetailsGenerator.php:129 | after complete lines, the following text matches exactly where it would alone |
| HeaderExtraction.ExtractHeaderIgnoresLaterLines | src/PackageDetails/Generators/DetailsGenerator.php:132-133 | once some line matches, lines after it do not change the value |
| HeaderExtraction.PrefixMatchExtract | src/PackageDetails/Generators/DetailsGenerator.php:132-133 | the same, for a given leftmost, greedy match in the leading lines |
| HeaderExtraction.ExtractHeaderSkipsEarlierLines | src/PackageDetails/Generators/DetailsGenerator.php:132-134 | leading lines where the label does not match do not change the value |
| HeaderExtraction.SuffixMatchExtract | src/PackageDetails/Generators/DetailsGenerator.php:132-133 | the same, when the following text has a match |
| HeaderExtraction.SuffixNoMatchExtract | src/PackageDetails/Generators/DetailsGenerator.php:132-134 | the same, when neither part has a match: both give '' |
| HeaderExtraction.ExtractHeaderOfHeaderLine | src/PackageDetails/Generators/DetailsGenerator.php:126-135 | a first line `<noise>Label: value`, in any letter case, gives the value trimmed |
| SectionParsing.JoinLines | src/PackageDetails/Generators/DetailsGenerator.php:144 | cutting the readme into lines loses nothing: joining them gives the readme back |
| SectionParsing.LinesJoin | src/PackageDetails/Generators/DetailsGenerator.php:144 | lines without newlines, joined and cut again, come back unchanged |
| SectionParsing.LinesAfterLine | src/PackageDetails/Generators/DetailsGenerator.php:144 | a line followed by a newline is cut off as one line |
| SectionParsing.LinesOfLine | src/PackageDetails/Generators/DetailsGenerator.php:144 | a text without a newline is one line |
| SectionParsing.DelimiterTitle | src/PackageDetails/Generators/DetailsGenerator.php:144 | `([^=]+)` captures only a non-empty title free of `=` |
| SectionParsing.DelimiterLine | src/PackageDetails/Generators/DetailsGenerator.php:144 | `==title==` with any white space around it is a delimiter capturing the title |
| SectionParsing.DelimiterShape | src/PackageDetails/Generators/DetailsGenerator.php:144 | conversely, a delimiter line is white space, `==`, its title, `==`, white space |
| SectionParsing.EqualsAround | src/PackageDetails/Generators/DetailsGenerator.php:144 | a text that starts and ends with `==` is `==`, its middle and `==` |
| SectionParsing.BareDelimiter | src/PackageDetails/Generators/DetailsGenerator.php:144 | `==title==` with no padding captures the title |
| SectionParsing.TripleEqualsIsNotDelimiter | tests/Unit/PackageDetails/Generators/DetailsGenerator_Test.php:37 | a `=== My Plugin ===` title line is not a section delimiter |
| SectionParsing.PlainLine | src/PackageDetails/Generators/DetailsGenerator.php:144 | a line that does not start with `=` and has no white space at its ends is body text |
| SectionParsing.HeadingLine | src/PackageDetails/Generators/DetailsGenerator.php:144 | `== Title ==` is a delimiter that captures ` Title ` |
| SectionParsing.FlattenPiece | src/PackageDetails/Generators/DetailsGenerator.php:145-149 | section j's title and body sit side by side in the flattened pieces |
| SectionParsing.Split | src/PackageDetails/Generators/DetailsGenerator.php:145-149 | the delimiter-capturing split has one piece for the lines before the first delimiter, then two pieces per section |
| SectionParsing.SplitPiece | src/PackageDetails/Generators/DetailsGenerator.php:145-155 | pieces 2n+1 and 2n+2 are section n's captured title and its body |
| SectionParsing.Assignments | src/PackageDetails/Generators/DetailsGenerator.php:152-157 | the loop's assignments, in order: each section's trimmed title with its trimmed body |
| SectionParsing.AssignStep | src/PackageDetails/Generators/DetailsGenerator.php:154-156 | one more iteration is one more assignment |
| SectionParsing.SectionData | src/PackageDetails/Generators/DetailsGenerator.php:142-159 | the `for` loop stepping two pieces at a time computes the section array (the older generator's `section_data()` is the same loop) |
| SectionParsing.GroupTitles | src/PackageDetails/Generators/DetailsGenerator.php:144-149 | there is one section per delimiter line, titled with what that line captures, in order |
| SectionParsing.GroupIsCut | src/PackageDetails/Generators/DetailsGenerator.php:144-149 | the readme's lines are the preamble, then each section's delimiter line followed by its body; each section's line captures its title, and no other line is a delimiter, so a body is exactly the lines up to the next delimiter or the end |
| SectionParsing.CutIsGroup | src/PackageDetails/Generators/DetailsGenerator.php:144-149 | that cut is unique: any grouping that cuts the lines that way is the model's |
| SectionParsing.CutPreambleLine | src/PackageDetails/Generators/DetailsGenerator.php:144-149 | a cut that starts with a preamble line: that line is no delimiter, and the rest is cut the same way |
| SectionParsing.CutSectionLine | src/PackageDetails/Generators/DetailsGenerator.php:144-149 | a cut that starts with a section: its line is a delimiter capturing its title, and its body and the later sections cut the rest |
| SectionParsing.SectionKeys | src/PackageDetails/Generators/DetailsGenerator.php:151-158 | the keys are the trimmed delimiter titles, deduplicated, and each key occurs once |
| SectionParsing.SectionBody | src/PackageDetails/Generators/DetailsGenerator.php:154-156 | a title maps to the trimmed body of the last section with that trimmed title: a later duplicate overwrites |
| SectionParsing.NoSectionsWithoutDelimiters | src/PackageDetails/Generators/DetailsGenerator.php:144-158 | the section array is empty exactly when no line is a delimiter |
| SectionParsing.EmptyReadme | src/PackageDetails/Generators/DetailsGenerator.php:202-205 | the '' readme has no sections |
| SectionParsing.TrimSpaced | src/PackageDetails/Generators/DetailsGenerator.php:154 | trim() removes the single spaces inside `== Title ==` |
| SectionParsing.TwoSectionsGroup | src/PackageDetails/Generators/DetailsGenerator.php:144-149 | two one-line sections group into two sections with an empty preamble |
| SectionParsing.TwoSectionsOf | src/PackageDetails/Generators/DetailsGenerator.php:144-149 | the same, from the readme text |
| SectionParsing.TwoAssignments | src/PackageDetails/Generators/DetailsGenerator.php:152-157 | their assignments are the bare titles with their lines |
| SectionParsing.TwoSections | tests/Integration/PackageDetails/Generators/PluginDetailsGenerator_IntegrationTest.php:33-44 | `== T1 ==`/line/`== T2 ==`/line gives exactly T1 and T2 with their lines, in that order |
| GeneratorInputs.LastIndex | src/PackageDetails/Generators/DetailsGenerator.php:195-196 | the last occurrence of a character, or none exactly when it does not occur |
| GeneratorInputs.DropTrailingSlashes | src/PackageDetails/Generators/DetailsGenerator.php:196 | basename() ignores trailing slashes: only slashes are removed, and none is left at the end |
| GeneratorInputs.LastComponent | src/PackageDetails/Generators/DetailsGenerator.php:196 | the last path component holds no slash |
| GeneratorInputs.LastComponentOf | src/PackageDetails/Generators/DetailsGenerator.php:196 | the last component of `dir/name` is the name |
| GeneratorInputs.Extension | src/PackageDetails/Generators/DetailsGenerator.php:195 | pathinfo's extension holds no dot |
| GeneratorInputs.StripExtension | src/PackageDetails/Generators/DetailsGenerator.php:195-196 | removing the suffix leaves a prefix of the name |
| GeneratorInputs.StripExtensionAtDot | src/PackageDetails/Generators/DetailsGenerator.php:195-196 | a name loses everything from its last dot, unless that dot starts the name |
| GeneratorInputs.StripExtensionNoDot | src/PackageDetails/Generators/DetailsGenerator.php:195-196 | a name without a dot is kept whole |
| GeneratorInputs.LastDotOf | src/PackageDetails/Generators/DetailsGenerator.php:195 | in `stem.ext` the last dot is the one before ext |
| GeneratorInputs.Basename | src/PackageDetails/Generators/DetailsGenerator.php:192-197 | the slug of a path holds no slash |
| GeneratorInputs.BasenameOfFile | src/PackageDetails/Generators/DetailsGenerator.php:192-197 | `dir/stem.ext` gives `stem`, e.g. `path/to/my-plugin.php` gives `my-plugin` |
| GeneratorInputs.ReadmeText | src/PackageDetails/Generators/DetailsGenerator.php:202-213 | a given readme's text is what gets parsed, unchanged; without a readme the text is '' |
| GeneratorInputs.DownloadUrl | src/PackageDetails/Generators/DetailsGenerator.php:218-221 | a given url is the download url, unchanged; without one the download url is '' |
| GeneratorInputs.JsonOptions | src/PackageDetails/Generators/DetailsGenerator.php:47-51 | the options are JSON_PRETTY_PRINT (128) exactly when pretty printing was asked for with true, else 0 |
| PluginDetails.HeaderKeys | src/PackageDetails/Generators/PluginDetailsGenerator.php:15-31 | the plugin header keys are version, name, requires, requires_php, homepage, author, author_profile, in that order |
| PluginDetails.Slug | src/PackageDetails/Generators/PluginDetailsGenerator.php:46-49 | a plugin's slug is a file name: it holds no slash |
| PluginDetails.AdditionalData | src/PackageDetails/Generators/PluginDetailsGenerator.php:36-41 | a plugin adds exactly one key, `sections` |
| ThemeDetails.HeaderKeys | src/PackageDetails/Generators/ThemeDetailsGenerator.php:17-23 | the theme header keys are name, homepage, version, requires, requires_php, in that order |
| ThemeDetails.SlugOf | src/PackageDetails/Generators/ThemeDetailsGenerator.php:33-37 | a theme's slug is the one given, or '' when none was given |
| ThemeDetails.Description | src/PackageDetails/Generators/ThemeDetailsGenerator.php:68-71 | without a `Description` section the description is '' |
| ThemeDetails.DescriptionIsLastSection | src/PackageDetails/Generators/ThemeDetailsGenerator.php:68-71 | with one, it is the trimmed body of the last section titled `Description` |
| ThemeDetails.AdditionalData | src/PackageDetails/Generators/ThemeDetailsGenerator.php:58-63 | a theme adds exactly one key, `description` |
| ThemeDetails.NoReadmeNoDescription | src/PackageDetails/Generators/ThemeDetailsGenerator.php:68-71 | with the '' readme the description is '' |
| DetailsGenerator.AdditionalData | src/PackageDetails/Generators/DetailsGenerator.php:113 | each variant's data has exactly its one key |
| DetailsGenerator.HeaderMapWellFormed | src/PackageDetails/Generators/PluginDetailsGenerator.php:15-23 | a header map has each key once |
| DetailsGenerator.DocumentKeysUnique | src/PackageDetails/Generators/DetailsGenerator.php:75-85 | the header keys, `slug`, `last_updated`, `download_link` and the variant key are all different |
| DetailsGenerator.HeaderFields | src/PackageDetails/Generators/DetailsGenerator.php:90-98 | one field per header-map entry, in map order, each the extracted value of its label |
| DetailsGenerator.Headers | src/PackageDetails/Generators/DetailsGenerator.php:90-98 | the foreach computes exactly those fields (the older generator's `headers()` is the same loop) |
| DetailsGenerator.HeadersStep | src/PackageDetails/Generators/DetailsGenerator.php:93-96 | one more iteration appends one more field |
| DetailsGenerator.HeaderFieldsKeys | src/PackageDetails/Generators/DetailsGenerator.php:90-98 | the fields have the header map's keys |
| DetailsGenerator.HeaderKeyIsNew | src/PackageDetails/Generators/DetailsGenerator.php:93-96 | each iteration's key is not yet in the array |
| DetailsGenerator.HeaderFieldsGet | src/PackageDetails/Generators/DetailsGenerator.php:90-98 | looked up by key: the value extracted for that key's label, or nothing for a key not in the map |
| DetailsGenerator.CommonKeys | src/PackageDetails/Generators/DetailsGenerator.php:75-85 | common data has the header keys, then `slug`, `last_updated`, `download_link`, each once |
| DetailsGenerator.FixedOverride | src/PackageDetails/Generators/DetailsGenerator.php:77-84 | `slug`, `last_updated` and `download_link` replace whatever the headers hold under those keys |
| DetailsGenerator.CommonGet | src/PackageDetails/Generators/DetailsGenerator.php:75-85 | common data by key: slug, timestamp, download url, else the header field |
| DetailsGenerator.UnfilteredKeys | src/PackageDetails/Generators/DetailsGenerator.php:60 | before filtering, the document has every key once, in document order, the variant key last |
| DetailsGenerator.UnfilteredGet | src/PackageDetails/Generators/DetailsGenerator.php:60 | array_replace: the variant's value under its key, common data otherwise |
| DetailsGenerator.FilteredGet | src/PackageDetails/Generators/DetailsGenerator.php:61 | after array_filter, a key is present exactly when its value was not falsy |
| DetailsGenerator.DetailsShape | src/PackageDetails/Generators/DetailsGenerator.php:60-61 | the document holds no falsy value, has each key once, and keeps the document order |
| DetailsGenerator.DetailsFromParts | src/PackageDetails/Generators/DetailsGenerator.php:60 | assembling what `headers()` and `section_data()` return gives the document |
| DetailsGenerator.Build | src/PackageDetails/Generators/DetailsGenerator.php:58-62 | the first call's computation, with both loops, builds exactly the document |
| DetailsGenerator.DetailsGet | src/PackageDetails/Generators/DetailsGenerator.php:56-98 | every key of the document and its value, each present exactly when not falsy; no other key |
| DetailsGenerator.HeaderKeyIsNotReserved | src/PackageDetails/Generators/DetailsGenerator.php:77-84 | no header key is `slug`, `last_updated`, `download_link` or the variant key |
| DetailsGenerator.DetailsHeader | src/PackageDetails/Generators/DetailsGenerator.php:90-98 | each header field is its label's extracted value, left out when that is '' or "0" |
| DetailsGenerator.DownloadLink | src/PackageDetails/Generators/DetailsGenerator.php:218-221 | `download_link` is present exactly when a non-falsy url was given, and then it is that url |
| DetailsGenerator.LastUpdated | src/PackageDetails/Generators/DetailsGenerator.php:81 | `last_updated` is the timestamp the document was built with |
| DetailsGenerator.PluginSlug | src/PackageDetails/Generators/PluginDetailsGenerator.php:46-49 | a plugin's `slug` is its source file's name without the extension, left out when that is '' or "0" |
| DetailsGenerator.PluginSections | src/PackageDetails/Generators/PluginDetailsGenerator.php:36-41 | a plugin's `sections` is the readme's section array, left out when that is empty |
| DetailsGenerator.PluginWithoutSections | src/PackageDetails/Generators/PluginDetailsGenerator.php:36-41 | without a readme, or with no delimiter line, a plugin has no `sections` |
| DetailsGenerator.ThemeSlug | tests/Integration/PackageDetails/Generators/ThemeDetailsGenerator_IntegrationTest.php:49-56 | a theme's `slug` is the one given, and there is no `slug` key when none was given |
| DetailsGenerator.ThemeDescription | src/PackageDetails/Generators/ThemeDetailsGenerator.php:58-71 | a theme's `description` is the readme's Description section, left out when empty, missing or without a readme |
| DetailsGenerator.ThemeHasNoSections | src/PackageDetails/Generators/ThemeDetailsGenerator.php:58-63 | a theme never has `sections` |
| DetailsGenerator.PluginHasNoDescription | src/PackageDetails/Generators/PluginDetailsGenerator.php:36-41 | a plugin never has `description` |
| DetailsGenerator.Generator.ForPlugin | src/PackageDetails/Generators/DetailsGenerator.php:36-42 | a new plugin generator keeps its inputs and has no document yet |
| DetailsGenerator.Generator.ForTheme | src/PackageDetails/Generators/ThemeDetailsGenerator.php:33-37 | a new theme generator keeps its inputs and its slug ('' when none was given) and has no document yet |
| DetailsGenerator.Generator.Details | src/PackageDetails/Generators/DetailsGenerator.php:56-64 | the first call builds the document at that time and stores it; later calls return the stored one, timestamp included |
| LegacyPluginDetails.GenerateData | src/Package_Details/Generators/PluginDetailsGenerator.php:37 | the older data holds no falsy value |
| LegacyPluginDetails.GenerateDataKeys | src/Package_Details/Generators/PluginDetailsGenerator.php:28-38 | its keys are only the seven header keys, `slug` and `sections` |
| LegacyPluginDetails.Generate | src/Package_Details/Generators/PluginDetailsGenerator.php:28-51 | the `headers()` and `section_data()` loops compute that data |
| LegacyPluginDetails.NoTimestampOrDownload | src/Package_Details/Generators/PluginDetailsGenerator.php:28-38 | it never has `last_updated` or `download_link` |
| LegacyPluginDetails.AllowedKeysAreMerged | src/Package_Details/Generators/PluginDetailsGenerator.php:15-36 | the allowed keys are the header keys followed by `slug` and `sections` |
| LegacyPluginDetails.ExtrasOverride | src/Package_Details/Generators/PluginDetailsGenerator.php:30-36 | `slug` and `sections` replace whatever the headers hold under those keys |
| LegacyPluginDetails.UnfilteredWellFormed | src/Package_Details/Generators/PluginDetailsGenerator.php:30-36 | before filtering, each key occurs once |
| LegacyPluginDetails.UnfilteredGet | src/Package_Details/Generators/PluginDetailsGenerator.php:30-36 | before filtering, by key: the slug, the sections, else the header field |
| LegacyPluginDetails.GenerateDataGet | src/Package_Details/Generators/PluginDetailsGenerator.php:28-38 | by key: the slug, the sections and each header field, each present exactly when not falsy |
| LegacyPluginDetails.AgreesWithPluginDetails | src/Package_Details/Generators/PluginDetailsGenerator.php:28-38 | on every key but `last_updated` and `download_link`, the older data agrees with the newer plugin document |
| DetailsGenerator.AsWrittenOnlyThemes | src/PackageDetails/Generators/DetailsGenerator.php:192-197 | as written, `details()` returns the intended document exactly for themes; for a plugin, `basename()` calls the missing `File::path()` and nothing is returned |
| LegacyPluginDetails.AsWrittenReturnsNothing | src/Package_Details/Generators/PluginDetailsGenerator.php:33 | as written, the older generator returns no data at all, where the intended one always does |

## Left out

- Reading files: `File::contents()`, `file_exists` and the legacy base class's existence checks and exceptions. The source path and text, the readme text and the url are given as values. `src/Data/File.php` and `src/Data/Url.php` are not part of this model; in particular, URL validation by `filter_var` is not.
- PluginDetails.Slug: `basename()` asks the source `File` for its `path()`, which `File` does not define (see Findings). The model gives `basename()` the source path, as the code evidently intends.
- The clock and `date_format`: `now` is the formatted timestamp, passed in.
- `json_encode` and its output layout. Only the option choice in `json()` is modelled.
- The legacy base class's `details()` memo. It is the same as the newer one, which the `Generator` class models.
- The argument parser, the controllers and the command-line scripts.
- A general PCRE engine. `[^=]+` in the section pattern can match a newline, so a title could span lines (`==\nTitle\n==`). The model only recognises titles on one line.
- Sections: the pattern's `\s*` swallows the white-space-only lines right after a delimiter and right before the next one, while the model keeps them in the body and leaves them to trim(). That agrees except when such a line holds a form feed, which `\s` matches and trim() keeps: `"== A ==\n\f\nx"` gives `A => "x"` in PHP but `A => "\f\nx"` here.
- PHP turns numeric-string array keys such as a section titled `1` into integers. Keys are always strings here.
- Bytes versus characters: the source works on bytes. Here text is a sequence of characters, and only ASCII letters are case-folded, as PCRE does without the `u` flag.
- The fixture plugin file of the integration tests is not transcribed. ExtractHeaderOfHeaderLine states the general fact those tests check for each header line.
- Falsy values other than `''`, `"0"` and `[]` (null, false, 0). The document only ever holds strings and arrays.

## Findings

| source | as written | input that shows it | evidently intended | confidence | as-written member | corrected member |
|---|---|---|---|---|---|---|
| src/Package_Details/Generators/PluginDetailsGenerator.php:33 | `generate_data()` calls `$this->basename()`, which neither this class nor its base class `PackageDetailsGenerator` defines, so every call throws an Error | any plugin, e.g. source path `my-plugin.php` | the slug is the source file's name without the extension, as the newer generator's `basename()` computes it | not executed | LegacyPluginDetails.AsWrittenReturnsNothing | LegacyPluginDetails.GenerateData |
| src/PackageDetails/Generators/DetailsGenerator.php:194 | `basename()` calls `$this->source->path()`, but the `final` class `File` (src/Data/File.php) defines only its constructor and `contents()`, so the call throws an Error; a plugin's `slug()` calls `basename()`, so every plugin `details()` and `json()` throws | any plugin generator, e.g. source `path/to/my-plugin.php`, asked for `details()` | `File` gives its path, and the slug is the file name without the extension (`my-plugin`) | not executed | DetailsGenerator.AsWrittenOnlyThemes | DetailsGenerator.PluginSlug |
