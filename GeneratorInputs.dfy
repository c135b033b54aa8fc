/**
 * The generator's inputs, already read: the source file's path and text, the
 * readme text if a readme was given, and the download url if one was given.
 * The helpers are DetailsGenerator's input accessors: `basename()`,
 * `readme()`, `download_url()` and the option choice in `json()`.
 */
module GeneratorInputs {
  import opened Wrappers

  datatype Inputs = Inputs(sourcePath: string, source: string, readme: Option<string>, url: Option<string>)

  /** The position of the last c in s, if any. */
  function LastIndex(s: string, c: char): (r: Option<nat>)
    ensures r.None? <==> c !in s
    ensures r.Some? ==> r.value < |s| && s[r.value] == c && c !in s[r.value + 1..]
  {
    if s == [] then None
    else if s[|s| - 1] == c then Some(|s| - 1)
    else
      var r := LastIndex(s[..|s| - 1], c);
      assert s == s[..|s| - 1] + [s[|s| - 1]];
      if r.Some? then
        assert s[r.value + 1..] == s[..|s| - 1][r.value + 1..] + [s[|s| - 1]];
        r
      else r
  }

  /** The path without its trailing slashes. */
  function DropTrailingSlashes(path: string): (r: string)
    ensures r == [] || r[|r| - 1] != '/'
    ensures r <= path
    ensures forall i :: |r| <= i < |path| ==> path[i] == '/'
  {
    if path != [] && path[|path| - 1] == '/' then DropTrailingSlashes(path[..|path| - 1]) else path
  }

  /** PHP basename($path) without a suffix: the last component of the path. */
  function LastComponent(path: string): (r: string)
    ensures '/' !in r
  {
    var p := DropTrailingSlashes(path);
    match LastIndex(p, '/')
    case None => p
    case Some(i) => p[i + 1..]
  }

  /** pathinfo($name, PATHINFO_EXTENSION): what follows the last dot, or '' without one. */
  function Extension(name: string): (r: string)
    ensures '.' !in r
  {
    match LastIndex(name, '.')
    case None => ""
    case Some(i) => name[i + 1..]
  }

  /**
   * PHP basename($name, '.' . pathinfo($name, PATHINFO_EXTENSION)) on a bare
   * file name: the suffix goes only when the name ends with it and is longer.
   */
  function StripExtension(name: string): (r: string)
    ensures r <= name
  {
    var suffix := "." + Extension(name);
    if |suffix| < |name| && name[|name| - |suffix|..] == suffix then name[..|name| - |suffix|] else name
  }

  /** `basename()`: the source file's name without its extension. */
  function Basename(path: string): (r: string)
    ensures '/' !in r
  {
    var name := LastComponent(path);
    var r := StripExtension(name);
    assert forall c :: c in r ==> c in name;
    r
  }

  /** A name keeps what precedes its last dot, unless that dot starts the name. */
  lemma StripExtensionAtDot(name: string, i: nat)
    requires LastIndex(name, '.') == Some(i)
    ensures StripExtension(name) == if i > 0 then name[..i] else name
  {
    assert Extension(name) == name[i + 1..];
    assert "." + Extension(name) == name[i..];
  }

  /** A name without a dot is kept whole. */
  lemma StripExtensionNoDot(name: string)
    requires '.' !in name
    ensures StripExtension(name) == name
  {
  }

  /** The last component of `<dir>/<name>` is the name. */
  lemma LastComponentOf(dir: string, name: string)
    requires dir == [] || dir[|dir| - 1] == '/'
    requires name != [] && '/' !in name && name[|name| - 1] != '/'
    ensures LastComponent(dir + name) == name
  {
    var path := dir + name;
    assert path[|path| - 1] == name[|name| - 1];
    assert DropTrailingSlashes(path) == path;
    if dir == [] {
      assert path == name;
    } else {
      assert path[|dir| - 1] == '/';
      assert path[|dir|..] == name;
      var i := LastIndex(path, '/').value;
      assert i == |dir| - 1;
    }
  }

  /** In `<stem>.<ext>` with no dot in ext, the last dot is the one before ext. */
  lemma LastDotOf(stem: string, ext: string)
    requires '.' !in ext
    ensures LastIndex(stem + "." + ext, '.') == Some(|stem|)
  {
    var name := stem + "." + ext;
    assert name[|stem|] == '.';
    var r := LastIndex(name, '.');
    assert name[|stem| + 1..] == ext;
  }

  lemma FileName(stem: string, ext: string)
    requires stem != [] && '/' !in stem && '/' !in ext
    ensures var name := stem + "." + ext;
      name[..|stem|] == stem && name[|name| - 1] != '/' && '/' !in name
  {
    var name := stem + "." + ext;
    assert name[..|stem|] == stem;
    assert name[|name| - 1] != '/' by {
      if ext == [] { assert name[|name| - 1] == '.'; } else { assert name[|name| - 1] == ext[|ext| - 1]; }
    }
    forall i | 0 <= i < |name| ensures name[i] != '/' {
      if i < |stem| { assert name[i] == stem[i]; }
      else if i > |stem| { assert name[i] == ext[i - |stem| - 1]; }
    }
  }

  /** The slug of `<dir>/<stem>.<ext>` is the stem, e.g. my-plugin for path/to/my-plugin.php. */
  lemma BasenameOfFile(dir: string, stem: string, ext: string)
    requires dir == [] || dir[|dir| - 1] == '/'
    requires stem != [] && '/' !in stem && '.' !in ext && '/' !in ext
    ensures Basename(dir + stem + "." + ext) == stem
  {
    var name := stem + "." + ext;
    FileName(stem, ext);
    assert dir + stem + "." + ext == dir + name;
    LastComponentOf(dir, name);
    LastDotOf(stem, ext);
    StripExtensionAtDot(name, |stem|);
    assert Basename(dir + name) == StripExtension(LastComponent(dir + name));
  }

  /** `readme()`: the readme's text, or '' when there is no readme. */
  function ReadmeText(readme: Option<string>): (r: string)
    ensures readme.None? ==> r == ""
    ensures readme.Some? ==> r == readme.value
  {
    match readme
    case Some(text) => text
    case None => ""
  }

  /** `download_url()`: the url as a string, or '' when there is none. */
  function DownloadUrl(url: Option<string>): (r: string)
    ensures url.None? ==> r == ""
    ensures url.Some? ==> r == url.value
  {
    match url
    case Some(u) => u
    case None => ""
  }

  /** JSON_PRETTY_PRINT. */
  const JsonPrettyPrint: int := 128

  /** The json_encode options `json()` passes: pretty printing only when asked for with true. */
  function JsonOptions(prettyPrint: Option<bool>): (opts: int)
    ensures opts == 0 || opts == JsonPrettyPrint
    ensures opts == JsonPrettyPrint <==> prettyPrint == Some(true)
  {
    match prettyPrint
    case Some(true) => JsonPrettyPrint
    case _ => 0
  }
}
