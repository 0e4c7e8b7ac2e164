/**
 * The packaging filter of zip_builder.py: `should_exclude(path)` decides
 * whether a directory or file is left out of the deployment archive. A path
 * is left out when one of its components is an excluded keyword, when it
 * ends with an excluded suffix, or when it ends with an excluded file name.
 * The path separator `os.sep` is a parameter.
 */
module Exclude {
  import opened Text

  /** Directory names that exclude every path having one of them as a whole component. */
  const ExcludeKeywords: seq<string> := [
    "PIL", "python", "lambda_build_temp", "lambda_lib",
    "build", "build_temp", "bin", "tests", "__pycache__",
    "백업", "backup"]

  /** Endings of package metadata and compiled-extension paths. */
  const ExcludeSuffixes: seq<string> := [".dist-info", ".pyd"]

  /** The archives and packaging scripts themselves. */
  const ExcludeFiles: seq<string> := [
    "python.zip", "deployment.zip", "zip_python_layer.py", "zip_builder.py", "build_lambda_zip.py"]

  /** `path.split(os.sep)` */
  function Components(path: string, sep: char): seq<string> {
    Split(path, [sep])
  }

  /** `any(key in parts for key in keys)` */
  function AnyIn(keys: seq<string>, parts: seq<string>): (b: bool)
    ensures b <==> exists key :: key in keys && key in parts
    decreases |keys|
  {
    if keys == [] then false
    else if keys[0] in parts then true
    else AnyIn(keys[1..], parts)
  }

  /** `any(path.endswith(e) for e in ends)` */
  function AnyEndsWith(path: string, ends: seq<string>): (b: bool)
    ensures b <==> exists e :: e in ends && EndsWith(path, e)
    decreases |ends|
  {
    if ends == [] then false
    else if EndsWith(path, ends[0]) then true
    else AnyEndsWith(path, ends[1..])
  }

  /**
   * `should_exclude(path)`: excluded exactly when a component is a keyword,
   * or the path ends with an excluded suffix or file name.
   */
  function ShouldExclude(path: string, sep: char): (r: bool)
    ensures r <==>
      || (exists kw :: kw in ExcludeKeywords && kw in Components(path, sep))
      || (exists x :: x in ExcludeSuffixes && EndsWith(path, x))
      || (exists f :: f in ExcludeFiles && EndsWith(path, f))
  {
    if AnyIn(ExcludeKeywords, Components(path, sep)) then true
    else if AnyEndsWith(path, ExcludeSuffixes) then true
    else AnyEndsWith(path, ExcludeFiles)
  }

  // ---------------------------------------------------------------------------
  // Properties

  /** Splitting a path joined from separator-free names gives the names back. */
  lemma ComponentsOfJoin(parts: seq<string>, sep: char)
    requires |parts| >= 1 && forall k :: 0 <= k < |parts| ==> sep !in parts[k]
    ensures Components(Join(parts, [sep]), sep) == parts
  {
    SplitJoinChar(parts, sep);
  }

  /**
   * The keyword test of a path joined from names: some name is exactly an
   * excluded keyword. A name that merely contains a keyword does not count.
   */
  lemma KeywordComponent(parts: seq<string>, sep: char)
    requires |parts| >= 1 && forall k :: 0 <= k < |parts| ==> sep !in parts[k]
    ensures AnyIn(ExcludeKeywords, Components(Join(parts, [sep]), sep)) <==>
      exists k :: 0 <= k < |parts| && parts[k] in ExcludeKeywords
  {
    ComponentsOfJoin(parts, sep);
    if exists k :: 0 <= k < |parts| && parts[k] in ExcludeKeywords {
      var k :| 0 <= k < |parts| && parts[k] in ExcludeKeywords;
      assert parts[k] in parts;
    }
  }

  /** Every path below a directory that has a keyword component is excluded as well. */
  lemma NestedInExcluded(dir: string, rest: string, sep: char)
    requires AnyIn(ExcludeKeywords, Components(dir, sep))
    ensures ShouldExclude(dir + [sep] + rest, sep)
  {
    SplitCharConcat(dir, sep, rest);
    var kw :| kw in ExcludeKeywords && kw in Components(dir, sep);
    assert kw in Components(dir + [sep] + rest, sep);
  }

  /** A name of a length no keyword has is not a keyword. */
  lemma NotAKeyword(name: string)
    requires |name| !in {2, 3, 5, 6, 10, 11, 17}
    ensures name !in ExcludeKeywords
  {
  }

  /** A path with a keyword as a component is excluded. */
  lemma ExcludedByKeyword(path: string, sep: char, kw: string)
    requires kw in ExcludeKeywords && kw in Components(path, sep)
    ensures ShouldExclude(path, sep)
  {
  }

  /** A path ending with an excluded suffix is excluded. */
  lemma ExcludedBySuffix(path: string, sep: char, i: nat)
    requires i < |ExcludeSuffixes| && EndsWith(path, ExcludeSuffixes[i])
    ensures ShouldExclude(path, sep)
  {
    assert ExcludeSuffixes[i] in ExcludeSuffixes;
  }

  /** A path ending with an excluded file name is excluded. */
  lemma ExcludedByFile(path: string, sep: char, i: nat)
    requires i < |ExcludeFiles| && EndsWith(path, ExcludeFiles[i])
    ensures ShouldExclude(path, sep)
  {
    assert ExcludeFiles[i] in ExcludeFiles;
  }

  /** Every excluded suffix ends with `o` or `d`. */
  lemma SuffixLastChars()
    ensures forall e :: e in ExcludeSuffixes ==> |e| > 0 && e[|e| - 1] in {'o', 'd'}
  {
  }

  /** Every excluded file name ends with `p` or `y`. */
  lemma FileLastChars()
    ensures forall e :: e in ExcludeFiles ==> |e| > 0 && e[|e| - 1] in {'p', 'y'}
  {
  }

  /** A path whose last character differs from that of every ending ends with none of them. */
  lemma LastCharMisses(path: string, ends: seq<string>)
    requires |path| > 0 && forall e :: e in ends ==> |e| > 0 && e[|e| - 1] != path[|path| - 1]
    ensures !AnyEndsWith(path, ends)
  {
    forall e | e in ends && |e| <= |path|
      ensures !EndsWith(path, e)
    {
      assert path[|path| - |e|..][|e| - 1] == path[|path| - 1];
    }
  }

  /** A path ending in something other than `o`, `d`, `p` or `y` is excluded exactly by its components. */
  lemma KeywordDecides(path: string, sep: char)
    requires |path| > 0 && path[|path| - 1] !in {'o', 'd', 'p', 'y'}
    ensures ShouldExclude(path, sep) == AnyIn(ExcludeKeywords, Components(path, sep))
  {
    SuffixLastChars();
    FileLastChars();
    LastCharMisses(path, ExcludeSuffixes);
    LastCharMisses(path, ExcludeFiles);
  }

  lemma JoinThree(a: string, b: string, c: string, sep: char)
    ensures Join([a, b, c], [sep]) == a + [sep] + b + [sep] + c
  {
    assert [a, b, c][1..] == [b, c];
    assert [b, c][1..] == [c];
    assert Join([b, c], [sep]) == b + [sep] + c;
  }

  /** `os.sep` on POSIX systems and on Windows. */
  predicate IsSep(sep: char) {
    sep == '/' || sep == '\\'
  }

  /** A name that only contains `__pycache__` is kept: keywords are matched against whole components. */
  lemma ContainingKeywordKept(sep: char)
    requires IsSep(sep)
    ensures !ShouldExclude("a" + [sep] + "__pycache__x" + [sep] + "app.txt", sep)
  {
    var kept := ["a", "__pycache__x", "app.txt"];
    NotAKeyword(kept[0]);
    NotAKeyword(kept[1]);
    NotAKeyword(kept[2]);
    assert sep !in kept[0] && sep !in kept[1] && sep !in kept[2];
    JoinThree(kept[0], kept[1], kept[2], sep);
    KeywordComponent(kept, sep);
    KeywordDecides(kept[0] + [sep] + kept[1] + [sep] + kept[2], sep);
  }

  /** The component `__pycache__` itself excludes the path. */
  lemma KeywordExcludes(sep: char)
    requires IsSep(sep)
    ensures ShouldExclude("a" + [sep] + "__pycache__" + [sep] + "app.txt", sep)
  {
    var cut := ["a", "__pycache__", "app.txt"];
    assert sep !in cut[0] && sep !in cut[1] && sep !in cut[2];
    JoinThree(cut[0], cut[1], cut[2], sep);
    ComponentsOfJoin(cut, sep);
    ExcludedByKeyword(cut[0] + [sep] + cut[1] + [sep] + cut[2], sep, cut[1]);
  }

  /**
   * The suffix test looks at the end of the whole path: a compiled extension
   * and a `.dist-info` directory are excluded.
   */
  lemma SuffixOfWholePath(sep: char)
    requires IsSep(sep)
    ensures ShouldExclude("site" + [sep] + "_speedups.pyd", sep)
    ensures ShouldExclude("requests-2.31.0.dist-info", sep)
  {
    ExcludedBySuffix("site" + [sep] + "_speedups.pyd", sep, 1);
    ExcludedBySuffix("requests-2.31.0.dist-info", sep, 0);
  }

  /** A file inside a `.dist-info` directory is not excluded by its own path. */
  lemma InsideDistInfoKept(sep: char)
    requires IsSep(sep)
    ensures !ShouldExclude("requests-2.31.0.dist-info" + [sep] + "METADATA", sep)
  {
    var parts := ["requests-2.31.0.dist-info", "METADATA"];
    NotAKeyword(parts[0]);
    NotAKeyword(parts[1]);
    assert sep !in parts[0] && sep !in parts[1];
    assert parts[1..] == [parts[1]];
    assert Join(parts, [sep]) == parts[0] + [sep] + parts[1];
    KeywordComponent(parts, sep);
    KeywordDecides(parts[0] + [sep] + parts[1], sep);
  }

  /**
   * The file test is an ending too, not an equality of names: a file named
   * `mypython.zip` is excluded, with no `python` component.
   */
  lemma FileNameIsASuffix(name: string, sep: char)
    requires name == "mypython.zip" && IsSep(sep)
    ensures Components(name, sep) == [name] && name !in ExcludeKeywords
    ensures ShouldExclude(name, sep)
  {
    NotAKeyword(name);
    ComponentsOfJoin([name], sep);
    ExcludedByFile(name, sep, 0);
  }
}
