/**
 The analyzer registry and dispatcher: which analyzer class a language name
 or a file path selects, the primary language of a project, the grouping of
 a project's files by language, and the file-count-weighted overall score.

 An analyzer class is named by a string (`"PythonAnalyzer"`). What a class
 reports as its language name (`get_language_name()`) and what analysing a
 group of files with it yields come from code outside this model, so both
 are parameters.
 */
module Factory {
  import opened Common
  import opened Strings
  import Dict
  import LanguageBase

  type ClassName = string

  /** `AnalyzerFactory._analyzers` and `AnalyzerFactory._extension_map`. */
  datatype Registry = Registry(analyzers: seq<(string, ClassName)>, extensionMap: seq<(string, string)>)

  /** The registry keys, lower-case, with the class each selects. */
  const DefaultAnalyzers: seq<(string, ClassName)> := [
    ("python", "PythonAnalyzer"), ("javascript", "JavaScriptAnalyzer"), ("typescript", "TypeScriptAnalyzer"),
    ("java", "JavaAnalyzer"), ("go", "GoAnalyzer"), ("c#", "CSharpAnalyzer"), ("csharp", "CSharpAnalyzer"),
    ("c++", "CppAnalyzer"), ("cpp", "CppAnalyzer"), ("php", "PHPAnalyzer"), ("ruby", "RubyAnalyzer"),
    ("swift", "SwiftAnalyzer"), ("html", "HTMLAnalyzer"), ("css", "CSSAnalyzer")]

  /** The extensions, lower-case with their dot, and the registry key each routes to. */
  const DefaultExtensions: seq<(string, string)> := [
    (".py", "python"), (".js", "javascript"), (".jsx", "javascript"), (".mjs", "javascript"),
    (".ts", "typescript"), (".tsx", "typescript"), (".java", "java"), (".go", "go"), (".cs", "csharp"),
    (".cpp", "cpp"), (".cc", "cpp"), (".cxx", "cpp"), (".hpp", "cpp"), (".h", "cpp"), (".hh", "cpp"),
    (".php", "php"), (".php3", "php"), (".php4", "php"), (".php5", "php"), (".phtml", "php"),
    (".rb", "ruby"), (".rake", "ruby"), (".gemspec", "ruby"), (".swift", "swift"),
    (".html", "html"), (".htm", "html"), (".xhtml", "html"),
    (".css", "css"), (".scss", "css"), (".sass", "css"), (".less", "css")]

  const Default: Registry := Registry(DefaultAnalyzers, DefaultExtensions)

  /** Every extension routes to a registered language key. */
  ghost predicate ExtensionsRouted(r: Registry)
  {
    forall i :: 0 <= i < |r.extensionMap| ==> Dict.HasKey(r.analyzers, r.extensionMap[i].1)
  }

  /** The built-in tables: 14 keys, all non-empty and lower-case, and 31 extensions, each routed to a key. */
  lemma DefaultTables()
    ensures |Default.analyzers| == 14 && |Default.extensionMap| == 31
    ensures ExtensionsRouted(Default)
    ensures forall i :: 0 <= i < |DefaultAnalyzers| ==>
      DefaultAnalyzers[i].0 != "" && Lower(DefaultAnalyzers[i].0) == DefaultAnalyzers[i].0
  {
    DefaultKeysLower();
    DefaultRouted();
  }

  /** Every registry key is non-empty and already lower-case. */
  lemma DefaultKeysLower()
    ensures forall i :: 0 <= i < |DefaultAnalyzers| ==>
      DefaultAnalyzers[i].0 != "" && Lower(DefaultAnalyzers[i].0) == DefaultAnalyzers[i].0
  {
    forall i | 0 <= i < |DefaultAnalyzers|
      ensures DefaultAnalyzers[i].0 != "" && Lower(DefaultAnalyzers[i].0) == DefaultAnalyzers[i].0
    {
      LowerNoUpper(DefaultAnalyzers[i].0);
    }
  }

  /** Every extension names a registry key. */
  lemma DefaultRouted()
    ensures ExtensionsRouted(Default)
  {
    var keys := ["python", "javascript", "typescript", "java", "go", "c#", "csharp",
                 "c++", "cpp", "php", "ruby", "swift", "html", "css"];
    assert Dict.Keys(DefaultAnalyzers) == keys;
    forall i | 0 <= i < |DefaultExtensions|
      ensures DefaultExtensions[i].1 in keys
    {
    }
  }

  // ---------------------------------------------------------------------
  // register_analyzer / get_analyzer
  // ---------------------------------------------------------------------

  /** `register_analyzer`: binds the lower-cased name; the extension map is not touched. */
  function Register(r: Registry, language: string, cls: ClassName): (r': Registry)
    ensures r'.extensionMap == r.extensionMap
    ensures Dict.Get(r'.analyzers, Lower(language)) == Some(cls)
    ensures forall k :: k != Lower(language) ==> Dict.Get(r'.analyzers, k) == Dict.Get(r.analyzers, k)
  {
    Registry(Dict.Put(r.analyzers, Lower(language), cls), r.extensionMap)
  }

  /** `get_analyzer`: the class registered under the lower-cased name, if any. */
  function GetAnalyzer(r: Registry, language: string): (c: Option<ClassName>)
    ensures c.Some? <==> Dict.HasKey(r.analyzers, Lower(language))
  {
    Dict.Get(r.analyzers, Lower(language))
  }

  /** Lookup ignores case: a name and its lower-case form select the same class. */
  lemma GetAnalyzerIgnoresCase(r: Registry, language: string)
    ensures GetAnalyzer(r, Lower(language)) == GetAnalyzer(r, language)
  {
    LowerIdempotent(language);
  }

  /** After registering, the name selects the new class. */
  lemma RegisterThenGet(r: Registry, language: string, cls: ClassName, other: string)
    ensures GetAnalyzer(Register(r, language, cls), language) == Some(cls)
    ensures Lower(other) != Lower(language) ==> GetAnalyzer(Register(r, language, cls), other) == GetAnalyzer(r, other)
  {
  }

  /** Registering keeps every extension routed to a registered key. */
  lemma RegisterKeepsRouted(r: Registry, language: string, cls: ClassName)
    requires ExtensionsRouted(r)
    ensures ExtensionsRouted(Register(r, language, cls))
  {
    var r' := Register(r, language, cls);
    forall i | 0 <= i < |r'.extensionMap|
      ensures Dict.HasKey(r'.analyzers, r'.extensionMap[i].1)
    {
      var k := r.extensionMap[i].1;
      assert Dict.Get(r.analyzers, k).Some?;
      if k != Lower(language) {
        assert Dict.Get(r'.analyzers, k) == Dict.Get(r.analyzers, k);
      }
    }
  }

  // ---------------------------------------------------------------------
  // os.path.splitext / get_analyzer_for_file / get_supported_extensions
  // ---------------------------------------------------------------------

  /** Every character is a dot. */
  predicate AllDots(s: string)
  {
    forall i :: 0 <= i < |s| ==> s[i] == '.'
  }

  /**
   The extension part of `os.path.splitext` on POSIX: from the last dot of
   the last path component to the end, provided something other than dots
   precedes that dot in the component; otherwise empty.
   */
  function Ext(path: string): string
  {
    var sep := RFind(path, '/');
    var dot := RFind(path, '.');
    if dot > sep && !AllDots(path[sep + 1..dot]) then path[dot..] else ""
  }

  /** An extension is empty or a suffix of the path made of a dot and then neither dots nor slashes. */
  lemma ExtShape(path: string)
    ensures var ext := Ext(path);
      ext == "" || (EndsWith(path, ext) && ext[0] == '.' && '.' !in ext[1..] && '/' !in ext)
  {
    var sep := RFind(path, '/');
    var dot := RFind(path, '.');
    if dot > sep && !AllDots(path[sep + 1..dot]) {
      SuffixShape(path, sep, dot);
    }
  }

  /** The suffix from the last dot, past the last slash, is a dot followed by neither dots nor slashes. */
  lemma SuffixShape(path: string, sep: int, dot: nat)
    requires sep < dot < |path| && path[dot] == '.'
    requires forall j :: dot < j < |path| ==> path[j] != '.'
    requires forall j :: sep < j < |path| && j >= 0 ==> path[j] != '/'
    ensures var ext := path[dot..];
      EndsWith(path, ext) && ext[0] == '.' && '.' !in ext[1..] && '/' !in ext
  {
    var ext := path[dot..];
    assert path[|path| - |ext|..] == ext;
    assert forall j :: 0 <= j < |ext[1..]| ==> ext[1..][j] == path[dot + 1 + j];
    assert forall j :: 0 <= j < |ext| ==> ext[j] == path[dot + j];
  }

  /** A last component made of a non-dot stem, a dot and a dot-free suffix has that dot and suffix as extension. */
  lemma ExtOf(dir: string, stem: string, suffix: string)
    requires '/' !in stem && '.' !in suffix && '/' !in suffix
    requires |stem| > 0 && stem[0] != '.'
    ensures Ext(dir + stem + "." + suffix) == "." + suffix
  {
    var path := dir + stem + "." + suffix;
    assert path == (dir + stem) + ['.'] + suffix;
    RFindAt(dir + stem, '.', suffix);
    var dot := |dir + stem|;
    assert '/' !in stem + ['.'] + suffix;
    assert path == dir + (stem + ['.'] + suffix);
    RFindAppendAbsent(dir, stem + ['.'] + suffix, '/');
    var sep := RFind(path, '/');
    assert sep < |dir|;
    assert path[sep + 1..dot][|dir| - sep - 1] == stem[0];
    assert path[dot..] == "." + suffix;
  }

  /** A component that is a dot followed by a dot-free name, a hidden file like `.bashrc`, has no extension. */
  lemma HiddenFileHasNoExt(dir: string, name: string)
    requires '.' !in name && '/' !in name
    ensures Ext(dir + "/." + name) == ""
  {
    var path := dir + "/." + name;
    assert path == (dir + ['/']) + ['.'] + name;
    RFindAt(dir + ['/'], '.', name);
    assert path == dir + ['/'] + (['.'] + name);
    assert '/' !in ['.'] + name;
    RFindAppendAbsent(dir + ['/'], ['.'] + name, '/');
    RFindAt(dir, '/', []);
    assert dir + ['/'] + [] == dir + ['/'];
  }

  /** `_extension_map.get(ext.lower())`, kept only when it is a non-empty (truthy) language key. */
  function LanguageOf(r: Registry, path: string): (l: Option<string>)
    ensures l.Some? ==> l.value != "" && Dict.Get(r.extensionMap, Lower(Ext(path))) == Some(l.value)
  {
    match Dict.Get(r.extensionMap, Lower(Ext(path)))
    case Some(language) => if language != "" then Some(language) else None
    case None => None
  }

  /** `get_analyzer_for_file`. */
  function GetAnalyzerForFile(r: Registry, path: string): (c: Option<ClassName>)
    ensures c.Some? ==> LanguageOf(r, path).Some? && GetAnalyzer(r, LanguageOf(r, path).value) == c
    ensures LanguageOf(r, path).None? ==> c.None?
  {
    match LanguageOf(r, path)
    case Some(language) => GetAnalyzer(r, language)
    case None => None
  }

  /** Non-empty lower-case registry keys that every extension routes to: a path with a listed extension gets an analyzer. */
  lemma ListedExtensionRouted(r: Registry, path: string)
    requires ExtensionsRouted(r)
    requires forall i :: 0 <= i < |r.analyzers| ==> r.analyzers[i].0 != "" && Lower(r.analyzers[i].0) == r.analyzers[i].0
    requires Dict.HasKey(r.extensionMap, Lower(Ext(path)))
    ensures GetAnalyzerForFile(r, path).Some?
  {
    var e := Lower(Ext(path));
    var language := Dict.Get(r.extensionMap, e).value;
    assert language == r.extensionMap[Dict.IndexOf(r.extensionMap, e)].1;
    var j := Dict.IndexOf(r.analyzers, language);
    assert Lower(language) == language;
  }

  /** With the built-in tables, every path with a listed extension gets an analyzer. */
  lemma DefaultRoutesListedExtensions(path: string)
    requires Dict.HasKey(DefaultExtensions, Lower(Ext(path)))
    ensures GetAnalyzerForFile(Default, path).Some?
  {
    DefaultTables();
    ListedExtensionRouted(Default, path);
  }

  /** A class registered afterwards does not route any path whose extension the map lacks. */
  lemma RegisterDoesNotRoute(r: Registry, language: string, cls: ClassName, path: string)
    requires !Dict.HasKey(r.extensionMap, Lower(Ext(path)))
    ensures GetAnalyzerForFile(Register(r, language, cls), path) == None
  {
  }

  /** `get_supported_extensions`. */
  function GetSupportedExtensions(r: Registry): (exts: seq<string>)
    ensures forall e :: e in exts <==> Dict.HasKey(r.extensionMap, e)
  {
    Dict.Keys(r.extensionMap)
  }

  /** `get_supported_languages`. */
  function GetSupportedLanguages(r: Registry): (names: seq<string>)
    ensures forall l :: l in names <==> Dict.HasKey(r.analyzers, l)
  {
    Dict.Keys(r.analyzers)
  }

  // ---------------------------------------------------------------------
  // Tagging files by language
  // ---------------------------------------------------------------------

  /** `(language, (path, content))` for each file `route` gives a language, in input order. */
  function Tag(route: string -> Option<string>, files: seq<(string, string)>): (ps: seq<(string, (string, string))>)
    ensures |ps| <= |files|
  {
    if |files| == 0 then []
    else
      var front := Tag(route, files[..|files| - 1]);
      var f := files[|files| - 1];
      match route(f.0)
      case Some(language) => front + [(language, f)]
      case None => front
  }

  /** A file is tagged with a language iff it is an input file that `route` sends to that language. */
  lemma {:induction false} TagMember(route: string -> Option<string>, files: seq<(string, string)>, language: string, f: (string, string))
    ensures (language, f) in Tag(route, files) <==> f in files && route(f.0) == Some(language)
    decreases |files|
  {
    if |files| > 0 {
      var front := files[..|files| - 1];
      TagMember(route, front, language, f);
      assert f in files <==> f in front || f == files[|files| - 1];
    }
  }

  /** Nothing is tagged iff `route` gives no input file a language. */
  lemma {:induction false} TagEmpty(route: string -> Option<string>, files: seq<(string, string)>)
    ensures |Tag(route, files)| == 0 <==> forall i :: 0 <= i < |files| ==> route(files[i].0).None?
    decreases |files|
  {
    if |files| > 0 {
      var front := files[..|files| - 1];
      TagEmpty(route, front);
      assert forall i :: 0 <= i < |front| ==> front[i] == files[i];
    }
  }

  /** A file sits in the group of a language iff it is an input file that `route` sends there. */
  lemma GroupExact(route: string -> Option<string>, files: seq<(string, string)>, language: string, f: (string, string))
    ensures f in Dict.GetOr(Dict.GroupBy(Tag(route, files)), language, []) <==> f in files && route(f.0) == Some(language)
  {
    var ps := Tag(route, files);
    Dict.ValuesForMember(ps, language, f);
    TagMember(route, files, language, f);
    if (language, f) in ps {
      var j :| 0 <= j < |ps| && ps[j] == (language, f);
    }
  }

  /** The largest group: none when there is no group, otherwise the first of the largest. */
  function Largest<V>(groups: seq<(string, seq<V>)>): (l: Option<string>)
    ensures l.None? <==> |groups| == 0
    ensures l.Some? ==> Dict.HasKey(groups, l.value)
  {
    if |groups| == 0 then None
    else
      var i := Dict.ArgMax(Dict.Sizes(groups));
      assert Dict.Keys(groups)[i] == groups[i].0;
      Some(groups[i].0)
  }

  /** The largest group has no fewer members than any group, and strictly more than every group before it. */
  lemma LargestIsMax<V>(groups: seq<(string, seq<V>)>)
    requires Dict.DistinctKeys(groups) && |groups| > 0
    ensures var i := Dict.IndexOf(groups, Largest(groups).value);
      && (forall j :: 0 <= j < |groups| ==> |groups[j].1| <= |groups[i].1|)
      && (forall j :: 0 <= j < i ==> |groups[j].1| < |groups[i].1|)
  {
    var i := Dict.ArgMax(Dict.Sizes(groups));
    Dict.GetAt(groups, i);
  }

  // ---------------------------------------------------------------------
  // detect_primary_language
  // ---------------------------------------------------------------------

  /** `_extension_map` routing of a path, as `detect_primary_language` counts it. */
  function Counted(r: Registry): string -> Option<string>
  {
    path => LanguageOf(r, path)
  }

  /** `language_counts`: the recognised files of each language, languages in order of first appearance. */
  function LanguageCounts(r: Registry, files: seq<(string, string)>): seq<(string, seq<(string, string)>)>
  {
    Dict.GroupBy(Tag(Counted(r), files))
  }

  /** `detect_primary_language`: `max(language_counts, key=language_counts.get)`. */
  function DetectPrimaryLanguage(r: Registry, files: seq<(string, string)>): Option<string>
  {
    Largest(LanguageCounts(r, files))
  }

  /** How many input files have an extension mapped to `language`. */
  function FileCount(r: Registry, files: seq<(string, string)>, language: string): nat
  {
    |Dict.ValuesFor(Tag(Counted(r), files), language)|
  }

  /** The primary language is none exactly when no path has a mapped extension. */
  lemma DetectPrimaryNone(r: Registry, files: seq<(string, string)>)
    ensures DetectPrimaryLanguage(r, files).None? <==> forall i :: 0 <= i < |files| ==> LanguageOf(r, files[i].0).None?
  {
    var ps := Tag(Counted(r), files);
    TagEmpty(Counted(r), files);
    Dict.GroupByPartition(ps);
    if |LanguageCounts(r, files)| == 0 {
      assert Dict.Sizes(LanguageCounts(r, files)) == [];
    }
  }

  /**
   When some path is recognised, the primary language has the most files of
   any language, and every language counted before it has strictly fewer.
   */
  lemma DetectPrimaryMax(r: Registry, files: seq<(string, string)>)
    requires DetectPrimaryLanguage(r, files).Some?
    ensures var p := DetectPrimaryLanguage(r, files).value;
      && FileCount(r, files, p) > 0
      && (forall l :: FileCount(r, files, l) <= FileCount(r, files, p))
      && (forall j :: 0 <= j < Dict.IndexOf(LanguageCounts(r, files), p) ==>
           |LanguageCounts(r, files)[j].1| < FileCount(r, files, p))
  {
    var counts := LanguageCounts(r, files);
    var ps := Tag(Counted(r), files);
    var p := DetectPrimaryLanguage(r, files).value;
    LargestIsMax(counts);
    var i := Dict.IndexOf(counts, p);
    Dict.GroupAt(ps, i);
    assert FileCount(r, files, p) == |counts[i].1|;
    forall l
      ensures FileCount(r, files, l) <= FileCount(r, files, p)
    {
      if Dict.HasKey(counts, l) {
        var j := Dict.IndexOf(counts, l);
        Dict.GroupAt(ps, j);
      } else {
        assert Dict.GetOr(counts, l, []) == [];
      }
    }
  }

  // ---------------------------------------------------------------------
  // analyze_multi_language_project / _calculate_aggregate_metrics
  // ---------------------------------------------------------------------

  /** The language name reported by the analyzer `get_analyzer_for_file` finds for a path. */
  function Reported(r: Registry, nameOf: ClassName -> string): string -> Option<string>
  {
    path => match GetAnalyzerForFile(r, path)
      case Some(cls) => Some(nameOf(cls))
      case None => None
  }

  /** `language_files`: each reported language name with its files, names in order of first appearance. */
  function LanguageFiles(r: Registry, nameOf: ClassName -> string, files: seq<(string, string)>): seq<(string, seq<(string, string)>)>
  {
    Dict.GroupBy(Tag(Reported(r, nameOf), files))
  }

  /** One entry of `results['languages']`: the analyzer's summary and the group's size. */
  datatype LanguageResult = LanguageResult(summary: LanguageBase.Summary, fileCount: nat)

  /** `total_metrics` when at least one language was analysed. */
  datatype Aggregate = Aggregate(totalFiles: nat, totalLines: nat, languagesAnalyzed: seq<string>, overallEmpathyScore: real)

  /** The result of `analyze_multi_language_project`; `totalMetrics` is None for `{}`. */
  datatype Project = Project(
    languages: seq<(string, LanguageResult)>,
    totalMetrics: Option<Aggregate>,
    primaryLanguage: Option<string>)

  /** The analysed groups: those whose name, lower-cased, is a registry key, in group order. */
  function Analyses(
    r: Registry, summarize: (ClassName, seq<(string, string)>) -> LanguageBase.Summary,
    groups: seq<(string, seq<(string, string)>)>): (ls: seq<(string, LanguageResult)>)
    ensures |ls| <= |groups|
  {
    if |groups| == 0 then []
    else
      var front := Analyses(r, summarize, groups[..|groups| - 1]);
      var g := groups[|groups| - 1];
      match AnalysisOf(r, summarize, g)
      case Some(result) => front + [(g.0, result)]
      case None => front
  }

  /** `lang['file_count'] for lang in language_results.values()`. */
  function FileCounts(ls: seq<(string, LanguageResult)>): (cs: seq<nat>)
    ensures |cs| == |ls|
    ensures forall i :: 0 <= i < |ls| ==> cs[i] == ls[i].1.fileCount
  {
    if |ls| == 0 then [] else FileCounts(ls[..|ls| - 1]) + [ls[|ls| - 1].1.fileCount]
  }

  /** `lang['summary']['total_lines'] for lang in language_results.values()`. */
  function LineCounts(ls: seq<(string, LanguageResult)>): (cs: seq<nat>)
    ensures |cs| == |ls|
    ensures forall i :: 0 <= i < |ls| ==> cs[i] == ls[i].1.summary.totalLines
  {
    if |ls| == 0 then [] else LineCounts(ls[..|ls| - 1]) + [ls[|ls| - 1].1.summary.totalLines]
  }

  /** `sum(empathy_score * file_count / total_files)`, accumulated in order. */
  function WeightedEmpathy(ls: seq<(string, LanguageResult)>, total: real): real
    requires total > 0.0
  {
    if |ls| == 0 then 0.0
    else WeightedEmpathy(ls[..|ls| - 1], total) + ls[|ls| - 1].1.summary.empathyScore * ((ls[|ls| - 1].1.fileCount as real) / total)
  }

  /**
   `_calculate_aggregate_metrics`: `{}` (None) for no languages; the
   division by `total_files` raises when every count is 0.
   */
  function CalculateAggregateMetrics(ls: seq<(string, LanguageResult)>): Result<Option<Aggregate>>
  {
    if |ls| == 0 then Ok(None)
    else
      var total := SumNat(FileCounts(ls));
      if total == 0 then Err("ZeroDivisionError: division by zero")
      else Ok(Some(Aggregate(total, SumNat(LineCounts(ls)), Dict.Keys(ls), WeightedEmpathy(ls, total as real))))
  }

  /** `analyze_multi_language_project` over a registry, the classes' language names and their analysis. */
  function AnalyzeMultiLanguageProject(
    r: Registry, nameOf: ClassName -> string,
    summarize: (ClassName, seq<(string, string)>) -> LanguageBase.Summary,
    files: seq<(string, string)>): Result<Project>
  {
    var groups := LanguageFiles(r, nameOf, files);
    var languages := Analyses(r, summarize, groups);
    match CalculateAggregateMetrics(languages)
    case Err(e) => Err(e)
    case Ok(total) => Ok(Project(languages, total, Largest(groups)))
  }

  // --- properties of the grouping

  /** A file sits in the group of a language iff it is an input file whose analyzer reports that language. */
  lemma LanguageFilesExact(r: Registry, nameOf: ClassName -> string, files: seq<(string, string)>, language: string, f: (string, string))
    ensures f in Dict.GetOr(LanguageFiles(r, nameOf, files), language, []) <==>
      f in files && GetAnalyzerForFile(r, f.0).Some? && nameOf(GetAnalyzerForFile(r, f.0).value) == language
  {
    GroupExact(Reported(r, nameOf), files, language, f);
  }

  /** Groups are never empty and their sizes add up to the number of files some analyzer takes. */
  lemma LanguageFilesPartition(r: Registry, nameOf: ClassName -> string, files: seq<(string, string)>)
    ensures forall i :: 0 <= i < |LanguageFiles(r, nameOf, files)| ==> |LanguageFiles(r, nameOf, files)[i].1| >= 1
    ensures SumNat(Dict.Sizes(LanguageFiles(r, nameOf, files))) == |Tag(Reported(r, nameOf), files)|
  {
    Dict.GroupByPartition(Tag(Reported(r, nameOf), files));
  }

  /** There is no group iff no file has an analyzer. */
  lemma LanguageFilesEmpty(r: Registry, nameOf: ClassName -> string, files: seq<(string, string)>)
    ensures |LanguageFiles(r, nameOf, files)| == 0 <==> forall i :: 0 <= i < |files| ==> GetAnalyzerForFile(r, files[i].0).None?
  {
    var route := Reported(r, nameOf);
    TagEmpty(route, files);
    LanguageFilesPartition(r, nameOf, files);
    assert forall i :: 0 <= i < |files| ==> (route(files[i].0).None? <==> GetAnalyzerForFile(r, files[i].0).None?);
    if |LanguageFiles(r, nameOf, files)| == 0 {
      assert Dict.Sizes(LanguageFiles(r, nameOf, files)) == [];
    }
  }

  /** A language is analysed iff it is a group whose name has a registered analyzer. */
  lemma {:induction false} AnalysesKeys(
    r: Registry, summarize: (ClassName, seq<(string, string)>) -> LanguageBase.Summary,
    groups: seq<(string, seq<(string, string)>)>, language: string)
    ensures Dict.HasKey(Analyses(r, summarize, groups), language) <==>
      Dict.HasKey(groups, language) && GetAnalyzer(r, language).Some?
    decreases |groups|
  {
    if |groups| > 0 {
      var front := groups[..|groups| - 1];
      AnalysesKeys(r, summarize, front, language);
      var ls := Analyses(r, summarize, groups);
      var lf := Analyses(r, summarize, front);
      var last := groups[|groups| - 1].0;
      assert Dict.Keys(groups) == Dict.Keys(front) + [last];
      if AnalysisOf(r, summarize, groups[|groups| - 1]).Some? {
        assert Dict.Keys(ls) == Dict.Keys(lf) + [last];
      }
    }
  }

  /** What analysing one group yields: nothing when its name has no registered analyzer. */
  function AnalysisOf(
    r: Registry, summarize: (ClassName, seq<(string, string)>) -> LanguageBase.Summary,
    g: (string, seq<(string, string)>)): Option<LanguageResult>
  {
    match GetAnalyzer(r, g.0)
    case Some(cls) => Some(LanguageResult(summarize(cls, g.1), |g.1|))
    case None => None
  }

  /** `entry` is the analysis of some group under the same name. */
  ghost predicate AnalysedGroup(
    r: Registry, summarize: (ClassName, seq<(string, string)>) -> LanguageBase.Summary,
    groups: seq<(string, seq<(string, string)>)>, entry: (string, LanguageResult))
  {
    exists j :: 0 <= j < |groups| && groups[j].0 == entry.0 && AnalysisOf(r, summarize, groups[j]) == Some(entry.1)
  }

  /**
   Each analysed entry is some group under the same name, with that group's
   size and the summary the registered analyzer gives for its files.
   */
  lemma {:induction false} AnalysesEntries(
    r: Registry, summarize: (ClassName, seq<(string, string)>) -> LanguageBase.Summary,
    groups: seq<(string, seq<(string, string)>)>)
    ensures forall i :: 0 <= i < |Analyses(r, summarize, groups)| ==> AnalysedGroup(r, summarize, groups, Analyses(r, summarize, groups)[i])
    decreases |groups|
  {
    if |groups| > 0 {
      var front := groups[..|groups| - 1];
      AnalysesEntries(r, summarize, front);
      var ls := Analyses(r, summarize, groups);
      var lf := Analyses(r, summarize, front);
      forall i | 0 <= i < |ls|
        ensures AnalysedGroup(r, summarize, groups, ls[i])
      {
        if i < |lf| {
          assert ls[i] == lf[i];
          var j :| 0 <= j < |front| && front[j].0 == lf[i].0 && AnalysisOf(r, summarize, front[j]) == Some(lf[i].1);
          assert groups[j] == front[j];
        } else {
          var g := groups[|groups| - 1];
          assert ls == lf + [(g.0, AnalysisOf(r, summarize, g).value)];
        }
      }
    }
  }

  /** Analysed names are distinct when group names are. */
  lemma {:induction false} AnalysesDistinct(
    r: Registry, summarize: (ClassName, seq<(string, string)>) -> LanguageBase.Summary,
    groups: seq<(string, seq<(string, string)>)>)
    requires Dict.DistinctKeys(groups)
    ensures Dict.DistinctKeys(Analyses(r, summarize, groups))
    decreases |groups|
  {
    if |groups| > 0 {
      var front := groups[..|groups| - 1];
      var last := groups[|groups| - 1].0;
      assert Dict.DistinctKeys(front) by {
        assert forall i :: 0 <= i < |front| ==> Dict.Keys(front)[i] == Dict.Keys(groups)[i];
      }
      AnalysesDistinct(r, summarize, front);
      AnalysesKeys(r, summarize, front, last);
      assert !Dict.HasKey(front, last);
    }
  }

  /** The primary language: none iff no file got an analyzer; otherwise a largest group, the first one on ties. */
  lemma PrimaryLanguageSpec(
    r: Registry, nameOf: ClassName -> string,
    summarize: (ClassName, seq<(string, string)>) -> LanguageBase.Summary,
    files: seq<(string, string)>)
    requires AnalyzeMultiLanguageProject(r, nameOf, summarize, files).Ok?
    ensures var p := AnalyzeMultiLanguageProject(r, nameOf, summarize, files).value.primaryLanguage;
      var groups := LanguageFiles(r, nameOf, files);
      && (p.None? <==> forall i :: 0 <= i < |files| ==> GetAnalyzerForFile(r, files[i].0).None?)
      && (p.Some? ==>
            (Dict.HasKey(groups, p.value)
             && (forall j :: 0 <= j < |groups| ==> |groups[j].1| <= |groups[Dict.IndexOf(groups, p.value)].1|)
             && (forall j :: 0 <= j < Dict.IndexOf(groups, p.value) ==> |groups[j].1| < |groups[Dict.IndexOf(groups, p.value)].1|)))
  {
    var groups := LanguageFiles(r, nameOf, files);
    LanguageFilesEmpty(r, nameOf, files);
    if |groups| > 0 {
      LargestIsMax(groups);
    }
  }

  /**
   The primary language is among the analysed languages exactly when its
   name, lower-cased, is a registry key: the grouping uses the name the
   analyzer reports, the analysis looks it up in the registry.
   */
  lemma PrimaryListedIffRegistered(
    r: Registry, nameOf: ClassName -> string,
    summarize: (ClassName, seq<(string, string)>) -> LanguageBase.Summary,
    files: seq<(string, string)>)
    requires AnalyzeMultiLanguageProject(r, nameOf, summarize, files).Ok?
    requires AnalyzeMultiLanguageProject(r, nameOf, summarize, files).value.primaryLanguage.Some?
    ensures var out := AnalyzeMultiLanguageProject(r, nameOf, summarize, files).value;
      Dict.HasKey(out.languages, out.primaryLanguage.value) <==> Dict.HasKey(r.analyzers, Lower(out.primaryLanguage.value))
  {
    var groups := LanguageFiles(r, nameOf, files);
    var out := AnalyzeMultiLanguageProject(r, nameOf, summarize, files).value;
    AnalysesKeys(r, summarize, groups, out.primaryLanguage.value);
  }

  /** Every group holds at least one file, so the aggregate never divides by zero and the analysis never raises. */
  lemma AnalyzeNeverFails(
    r: Registry, nameOf: ClassName -> string,
    summarize: (ClassName, seq<(string, string)>) -> LanguageBase.Summary,
    files: seq<(string, string)>)
    ensures AnalyzeMultiLanguageProject(r, nameOf, summarize, files).Ok?
  {
    var groups := LanguageFiles(r, nameOf, files);
    var ls := Analyses(r, summarize, groups);
    LanguageFilesPartition(r, nameOf, files);
    AnalysesCounted(r, summarize, groups);
    AggregateCases(ls);
  }

  /** Analysing non-empty groups gives positive file counts. */
  lemma AnalysesCounted(
    r: Registry, summarize: (ClassName, seq<(string, string)>) -> LanguageBase.Summary,
    groups: seq<(string, seq<(string, string)>)>)
    requires forall i :: 0 <= i < |groups| ==> |groups[i].1| >= 1
    ensures forall i :: 0 <= i < |Analyses(r, summarize, groups)| ==> Analyses(r, summarize, groups)[i].1.fileCount >= 1
  {
    var ls := Analyses(r, summarize, groups);
    AnalysesEntries(r, summarize, groups);
    forall i | 0 <= i < |ls|
      ensures ls[i].1.fileCount >= 1
    {
      assert AnalysedGroup(r, summarize, groups, ls[i]);
      var j :| 0 <= j < |groups| && groups[j].0 == ls[i].0 && AnalysisOf(r, summarize, groups[j]) == Some(ls[i].1);
    }
  }

  // --- properties of the aggregate

  /** The aggregate is `{}` exactly for no languages, and raises exactly when every file count is 0. */
  lemma AggregateCases(ls: seq<(string, LanguageResult)>)
    ensures CalculateAggregateMetrics(ls) == Ok(None) <==> |ls| == 0
    ensures CalculateAggregateMetrics(ls).Err? <==> |ls| > 0 && forall i :: 0 <= i < |ls| ==> ls[i].1.fileCount == 0
    ensures CalculateAggregateMetrics(ls).Ok? && CalculateAggregateMetrics(ls).value.Some? ==>
      CalculateAggregateMetrics(ls).value.value.totalFiles == SumNat(FileCounts(ls))
      && CalculateAggregateMetrics(ls).value.value.totalLines == SumNat(LineCounts(ls))
      && CalculateAggregateMetrics(ls).value.value.languagesAnalyzed == Dict.Keys(ls)
  {
    if |ls| > 0 {
      if SumNat(FileCounts(ls)) == 0 {
        SumNatZero(FileCounts(ls));
      } else if forall i :: 0 <= i < |ls| ==> ls[i].1.fileCount == 0 {
        SumNatZero(FileCounts(ls));
      }
    }
  }

  lemma {:induction false} SumNatZero(s: seq<nat>)
    ensures SumNat(s) == 0 <==> forall i :: 0 <= i < |s| ==> s[i] == 0
    decreases |s|
  {
    if |s| > 0 {
      SumNatZero(s[..|s| - 1]);
      assert forall i :: 0 <= i < |s| - 1 ==> s[..|s| - 1][i] == s[i];
    }
  }

  /** Scaling keeps order when the factor is not negative. */
  lemma ScaleMonotone(a: real, b: real, k: real)
    requires a <= b && k >= 0.0
    ensures a * k <= b * k
  {
  }

  lemma ShareNonNegative(c: real, total: real)
    requires c >= 0.0 && total > 0.0
    ensures c / total >= 0.0
  {
  }

  /** Shares of one total add up, also when scaled. */
  lemma ShareAdd(k: real, a: real, b: real, total: real)
    requires total > 0.0
    ensures k * (a / total) + k * (b / total) == k * ((a + b) / total)
  {
    assert a / total + b / total == (a + b) / total;
  }

  /** The weighted sum lies between `lo` and `hi` times the share of files it covers. */
  lemma {:induction false} WeightedBounds(ls: seq<(string, LanguageResult)>, total: real, lo: real, hi: real)
    requires total > 0.0
    requires forall i :: 0 <= i < |ls| ==> lo <= ls[i].1.summary.empathyScore <= hi
    ensures lo * ((SumNat(FileCounts(ls)) as real) / total) <= WeightedEmpathy(ls, total)
    ensures WeightedEmpathy(ls, total) <= hi * ((SumNat(FileCounts(ls)) as real) / total)
    decreases |ls|
  {
    if |ls| == 0 {
      WeightedBoundsEmpty(ls, total, lo, hi);
    } else {
      var front := ls[..|ls| - 1];
      assert lo <= ls[|ls| - 1].1.summary.empathyScore <= hi;
      assert forall i :: 0 <= i < |front| ==> front[i] == ls[i];
      WeightedBounds(front, total, lo, hi);
      WeightedBoundsStep(ls, total, lo, hi);
    }
  }

  /** With no languages the sum and the bounds are all zero. */
  lemma WeightedBoundsEmpty(ls: seq<(string, LanguageResult)>, total: real, lo: real, hi: real)
    requires total > 0.0 && |ls| == 0
    ensures lo * ((SumNat(FileCounts(ls)) as real) / total) <= WeightedEmpathy(ls, total)
    ensures WeightedEmpathy(ls, total) <= hi * ((SumNat(FileCounts(ls)) as real) / total)
  {
    assert SumNat(FileCounts(ls)) == 0;
    assert (0 as real) / total == 0.0;
  }

  /** The bounds carry over from all languages but the last to all of them. */
  lemma WeightedBoundsStep(ls: seq<(string, LanguageResult)>, total: real, lo: real, hi: real)
    requires total > 0.0 && |ls| > 0
    requires lo <= ls[|ls| - 1].1.summary.empathyScore <= hi
    requires var front := ls[..|ls| - 1];
      lo * ((SumNat(FileCounts(front)) as real) / total) <= WeightedEmpathy(front, total) <= hi * ((SumNat(FileCounts(front)) as real) / total)
    ensures lo * ((SumNat(FileCounts(ls)) as real) / total) <= WeightedEmpathy(ls, total)
    ensures WeightedEmpathy(ls, total) <= hi * ((SumNat(FileCounts(ls)) as real) / total)
  {
    var front := ls[..|ls| - 1];
    var last := ls[|ls| - 1].1;
    var wf, w := WeightedEmpathy(front, total), WeightedEmpathy(ls, total);
    var cf, sum := SumNat(FileCounts(front)) as real, SumNat(FileCounts(ls)) as real;
    assert w == wf + last.summary.empathyScore * ((last.fileCount as real) / total) by {
      WeightedStep(ls, total);
    }
    assert sum == cf + last.fileCount as real by {
      FileCountsStep(ls);
    }
    BoundStep(lo, last.summary.empathyScore, hi, wf, w, cf, last.fileCount as real, sum, total);
  }

  /** One more language's term added to the weighted sum. */
  lemma WeightedStep(ls: seq<(string, LanguageResult)>, total: real)
    requires total > 0.0 && |ls| > 0
    ensures WeightedEmpathy(ls, total) ==
      WeightedEmpathy(ls[..|ls| - 1], total) + ls[|ls| - 1].1.summary.empathyScore * ((ls[|ls| - 1].1.fileCount as real) / total)
  {
  }

  /** The induction step of the bounds on the weighted sum, as plain real arithmetic. */
  lemma BoundStep(lo: real, s: real, hi: real, wf: real, w: real, cf: real, c: real, sum: real, total: real)
    requires total > 0.0 && c >= 0.0 && lo <= s <= hi
    requires lo * (cf / total) <= wf <= hi * (cf / total)
    requires w == wf + s * (c / total) && sum == cf + c
    ensures lo * (sum / total) <= w <= hi * (sum / total)
  {
    ShareNonNegative(c, total);
    ScaleMonotone(lo, s, c / total);
    ScaleMonotone(s, hi, c / total);
    ShareAdd(lo, cf, c, total);
    ShareAdd(hi, cf, c, total);
  }

  /** The file counts of all languages add up to those of the earlier ones plus the last one's. */
  lemma FileCountsStep(ls: seq<(string, LanguageResult)>)
    requires |ls| > 0
    ensures SumNat(FileCounts(ls)) == SumNat(FileCounts(ls[..|ls| - 1])) + ls[|ls| - 1].1.fileCount
  {
    var front := ls[..|ls| - 1];
    var last := ls[|ls| - 1].1.fileCount;
    assert FileCounts(ls) == FileCounts(front) + [last];
    SumNatAppend(FileCounts(front), [last]);
    assert SumNat([last]) == last by {
      assert [last][..0] == [];
    }
  }

  /** The overall score lies between the smallest and the largest per-language score. */
  lemma OverallScoreWithin(ls: seq<(string, LanguageResult)>, lo: real, hi: real)
    requires CalculateAggregateMetrics(ls).Ok? && CalculateAggregateMetrics(ls).value.Some?
    requires forall i :: 0 <= i < |ls| ==> lo <= ls[i].1.summary.empathyScore <= hi
    ensures lo <= CalculateAggregateMetrics(ls).value.value.overallEmpathyScore <= hi
  {
    var total := SumNat(FileCounts(ls)) as real;
    WeightedBounds(ls, total, lo, hi);
    DivideExact(total, total, 1.0);
  }
}
