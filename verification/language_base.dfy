/**
 The per-language analyzer template (`LanguageAnalyzer`): a fixed set of
 eight metric categories, extension-based file selection, per-file analysis
 delegated to the concrete language, averaging of per-file metrics into one
 leaf per category, and the fixed-weight empathy score.

 The language-specific parts — `get_file_extensions`, `get_language_name`
 and `analyze_file` — are parameters. `analyze_file` returns `None` when it
 raises.
 */
module LanguageBase {
  import opened Common
  import opened Strings
  import Dict

  /** The leaves of one category: `{leaf_name: number}`. */
  type Leaves = seq<(string, real)>

  /** `{category: {leaf_name: number}}`, for one file or aggregated. */
  type Metrics = seq<(string, Leaves)>

  /** The eight categories, in the order `__init__` creates them. */
  const Categories: seq<string> := ["nombres", "documentacion", "modularidad", "complejidad",
                                    "manejo_errores", "pruebas", "seguridad", "consistencia_estilo"]

  /** The state of an analyzer: `metrics`, `total_files`, `total_lines`. */
  datatype Analyzer = Analyzer(metrics: Metrics, totalFiles: nat, totalLines: nat)

  /** Every category of the template is a key of `m`. */
  predicate HasCategories(m: Metrics)
  {
    forall c :: c in Categories ==> Dict.HasKey(m, c)
  }

  /** `LanguageAnalyzer.__init__`. */
  function NewAnalyzer(): (a: Analyzer)
    ensures Dict.Keys(a.metrics) == Categories && Dict.DistinctKeys(a.metrics)
    ensures forall i :: 0 <= i < |a.metrics| ==> a.metrics[i].1 == []
    ensures a.totalFiles == 0 && a.totalLines == 0
  {
    var m := EmptyCategories(Categories);
    CategoriesDistinct();
    assert forall i, j :: 0 <= i < j < |m| ==> m[i].0 == Categories[i] && m[j].0 == Categories[j];
    Analyzer(m, 0, 0)
  }

  /** `{c: {} for c in cs}`. */
  function EmptyCategories(cs: seq<string>): (m: Metrics)
    ensures Dict.Keys(m) == cs
    ensures |m| == |cs| && forall i :: 0 <= i < |m| ==> m[i] == (cs[i], [])
  {
    if |cs| == 0 then [] else EmptyCategories(cs[..|cs| - 1]) + [(cs[|cs| - 1], [])]
  }

  /** The eight category names are pairwise different. */
  lemma CategoriesDistinct()
    ensures forall i, j :: 0 <= i < j < |Categories| ==> Categories[i] != Categories[j]
  {
    var c := Categories;
    assert |c[0]| == 7 && |c[1]| == 13 && |c[2]| == 11 && |c[3]| == 11;
    assert |c[4]| == 14 && |c[5]| == 7 && |c[6]| == 9 && |c[7]| == 19;
    assert c[0][0] != c[5][0] && c[2][2] != c[3][2];
  }

  // ---------------------------------------------------------------------
  // should_analyze_file / analyze_files
  // ---------------------------------------------------------------------

  /** `any(file_path.endswith(ext) for ext in exts)`, scanning the extensions in order. */
  predicate ShouldAnalyzeFile(exts: seq<string>, path: string)
  {
    |exts| > 0 && (EndsWith(path, exts[0]) || ShouldAnalyzeFile(exts[1..], path))
  }

  /** A path is analyzed iff it ends with one of the extensions (case-sensitively). */
  lemma {:induction false} ShouldAnalyzeFileSpec(exts: seq<string>, path: string)
    ensures ShouldAnalyzeFile(exts, path) <==> exists e :: e in exts && EndsWith(path, e)
    decreases |exts|
  {
    if |exts| > 0 {
      ShouldAnalyzeFileSpec(exts[1..], path);
      assert forall e :: e in exts <==> e == exts[0] || e in exts[1..];
    }
  }

  /**
   The files `analyze_files` counts: those whose path matches and whose
   analysis does not raise, as (content, metrics), in input order.
   */
  function Analyzed(exts: seq<string>, analyze: (string, string) -> Option<Metrics>, files: seq<(string, string)>): (r: seq<(string, Metrics)>)
    ensures |r| <= |files|
  {
    AnalyzedPrefix(exts, analyze, files, |files|)
  }

  /** The files counted among the first `n`. */
  function AnalyzedPrefix(exts: seq<string>, analyze: (string, string) -> Option<Metrics>, files: seq<(string, string)>, n: nat): (r: seq<(string, Metrics)>)
    requires n <= |files|
    ensures |r| <= n
  {
    if n == 0 then []
    else
      var front := AnalyzedPrefix(exts, analyze, files, n - 1);
      var (path, content) := files[n - 1];
      if ShouldAnalyzeFile(exts, path) && analyze(path, content).Some? then front + [(content, analyze(path, content).value)]
      else front
  }

  /** Every counted file is an input file that matches and whose analysis succeeded with those metrics. */
  lemma AnalyzedSource(exts: seq<string>, analyze: (string, string) -> Option<Metrics>, files: seq<(string, string)>, n: nat)
    requires n < |Analyzed(exts, analyze, files)|
    ensures exists i :: (0 <= i < |files| && ShouldAnalyzeFile(exts, files[i].0)
      && files[i].1 == Analyzed(exts, analyze, files)[n].0
      && analyze(files[i].0, files[i].1) == Some(Analyzed(exts, analyze, files)[n].1))
  {
    var i := PrefixSource(exts, analyze, files, |files|, n);
  }

  lemma {:induction false} PrefixSource(exts: seq<string>, analyze: (string, string) -> Option<Metrics>, files: seq<(string, string)>, k: nat, n: nat)
    returns (i: nat)
    requires k <= |files| && n < |AnalyzedPrefix(exts, analyze, files, k)|
    ensures var c := AnalyzedPrefix(exts, analyze, files, k)[n];
      i < k && ShouldAnalyzeFile(exts, files[i].0) && files[i].1 == c.0 && analyze(files[i].0, files[i].1) == Some(c.1)
    decreases k
  {
    var a := AnalyzedPrefix(exts, analyze, files, k - 1);
    if n < |a| {
      i := PrefixSource(exts, analyze, files, k - 1, n);
    } else {
      i := k - 1;
    }
  }

  /** A file that matches no extension is never counted, whatever its content. */
  lemma AnalyzedSkipsUnmatched(exts: seq<string>, analyze: (string, string) -> Option<Metrics>, files: seq<(string, string)>)
    requires forall i :: 0 <= i < |files| ==> !ShouldAnalyzeFile(exts, files[i].0)
    ensures Analyzed(exts, analyze, files) == []
  {
    PrefixSkipsUnmatched(exts, analyze, files, |files|);
  }

  lemma {:induction false} PrefixSkipsUnmatched(exts: seq<string>, analyze: (string, string) -> Option<Metrics>, files: seq<(string, string)>, k: nat)
    requires k <= |files| && forall i :: 0 <= i < |files| ==> !ShouldAnalyzeFile(exts, files[i].0)
    ensures AnalyzedPrefix(exts, analyze, files, k) == []
    decreases k
  {
    if k > 0 {
      PrefixSkipsUnmatched(exts, analyze, files, k - 1);
    }
  }

  /** Sum of `content.count('\n')` over the counted files. */
  function NewlinesOf(a: seq<(string, Metrics)>): nat
  {
    if |a| == 0 then 0 else NewlinesOf(a[..|a| - 1]) + CountChar(a[|a| - 1].0, '\n')
  }

  /**
   `LanguageAnalyzer.analyze_files`: the counters grow by the counted files
   and their newlines; the metrics are re-aggregated from the counted files'
   metrics, and left as they were when no file is counted.
   */
  method AnalyzeFiles(a: Analyzer, exts: seq<string>, analyze: (string, string) -> Option<Metrics>, files: seq<(string, string)>)
    returns (r: Analyzer)
    requires HasCategories(a.metrics)
    ensures var counted := Analyzed(exts, analyze, files);
      && r.totalFiles == a.totalFiles + |counted|
      && r.totalLines == a.totalLines + NewlinesOf(counted)
      && r.metrics == (if |counted| == 0 then a.metrics else AggregateMetrics(a.metrics, Dict.Values(counted)))
    ensures Dict.Keys(r.metrics) == Dict.Keys(a.metrics)
  {
    var fileMetrics, totalFiles, totalLines := CountFiles(a, exts, analyze, files);
    var metrics := a.metrics;
    if |fileMetrics| > 0 {
      metrics := AggregateMetrics(a.metrics, fileMetrics);
      AggregateKeepsKeys(a.metrics, fileMetrics);
    }
    r := Analyzer(metrics, totalFiles, totalLines);
  }

  /** The loop of `analyze_files`: the metrics of the counted files, and the counters grown by them. */
  method CountFiles(a: Analyzer, exts: seq<string>, analyze: (string, string) -> Option<Metrics>, files: seq<(string, string)>)
    returns (fileMetrics: seq<Metrics>, totalFiles: nat, totalLines: nat)
    ensures var counted := Analyzed(exts, analyze, files);
      && fileMetrics == Dict.Values(counted)
      && totalFiles == a.totalFiles + |counted|
      && totalLines == a.totalLines + NewlinesOf(counted)
  {
    fileMetrics := [];
    totalFiles := a.totalFiles;
    totalLines := a.totalLines;
    var i := 0;
    while i < |files|
      invariant 0 <= i <= |files|
      invariant fileMetrics == Dict.Values(AnalyzedPrefix(exts, analyze, files, i))
      invariant totalFiles == a.totalFiles + |AnalyzedPrefix(exts, analyze, files, i)|
      invariant totalLines == a.totalLines + NewlinesOf(AnalyzedPrefix(exts, analyze, files, i))
    {
      fileMetrics, totalFiles, totalLines := CountStep(exts, analyze, files, i, a.totalFiles, a.totalLines, fileMetrics, totalFiles, totalLines);
      i := i + 1;
    }
  }

  /** One turn of the loop of `analyze_files`, on file `i`. */
  method CountStep(exts: seq<string>, analyze: (string, string) -> Option<Metrics>, files: seq<(string, string)>, i: nat,
                   ghost baseFiles: nat, ghost baseLines: nat, fileMetrics: seq<Metrics>, totalFiles: nat, totalLines: nat)
    returns (fileMetrics': seq<Metrics>, totalFiles': nat, totalLines': nat)
    requires i < |files|
    requires fileMetrics == Dict.Values(AnalyzedPrefix(exts, analyze, files, i))
    requires totalFiles == baseFiles + |AnalyzedPrefix(exts, analyze, files, i)|
    requires totalLines == baseLines + NewlinesOf(AnalyzedPrefix(exts, analyze, files, i))
    ensures fileMetrics' == Dict.Values(AnalyzedPrefix(exts, analyze, files, i + 1))
    ensures totalFiles' == baseFiles + |AnalyzedPrefix(exts, analyze, files, i + 1)|
    ensures totalLines' == baseLines + NewlinesOf(AnalyzedPrefix(exts, analyze, files, i + 1))
  {
    fileMetrics', totalFiles', totalLines' := fileMetrics, totalFiles, totalLines;
    var (path, content) := files[i];
    if ShouldAnalyzeFile(exts, path) {
      var m := analyze(path, content);
      if m.Some? {
        CountedSnoc(AnalyzedPrefix(exts, analyze, files, i), (content, m.value));
        fileMetrics' := fileMetrics + [m.value];
        totalFiles' := totalFiles + 1;
        totalLines' := totalLines + CountChar(content, '\n');
      }
    }
  }

  /** One more counted file adds its metrics and its newlines. */
  lemma CountedSnoc(a: seq<(string, Metrics)>, x: (string, Metrics))
    ensures Dict.Values(a + [x]) == Dict.Values(a) + [x.1]
    ensures NewlinesOf(a + [x]) == NewlinesOf(a) + CountChar(x.0, '\n')
  {
    assert (a + [x])[..|a|] == a;
  }

  // ---------------------------------------------------------------------
  // aggregate_metrics
  // ---------------------------------------------------------------------

  /** One averaging step of `aggregate_metrics`: leaf `source` of `category` is averaged into leaf `target`. */
  datatype Rename = Rename(category: string, source: string, target: string)

  /** The eight averaging steps, in code order. */
  const Renames: seq<Rename> := [
    Rename("nombres", "descriptividad", "descriptividad"),
    Rename("documentacion", "cobertura", "cobertura_docstrings"),
    Rename("complejidad", "ciclomatica", "complejidad_ciclomatica"),
    Rename("modularidad", "funciones", "funciones_por_archivo"),
    Rename("manejo_errores", "cobertura", "cobertura_manejo_errores"),
    Rename("pruebas", "cobertura", "cobertura_pruebas"),
    Rename("seguridad", "validacion", "validacion_entradas"),
    Rename("consistencia_estilo", "consistencia", "consistencia_nombres")]

  /** `m.get(category, {})`. */
  function Category(m: Metrics, category: string): Leaves
  {
    Dict.GetOr(m, category, [])
  }

  /** `[m.get(category, {}).get(leaf, 0) for m in file_metrics if m.get(category)]`. */
  function Scores(fms: seq<Metrics>, category: string, leaf: string): (s: seq<real>)
    ensures |s| <= |fms|
  {
    if |fms| == 0 then []
    else
      var front := Scores(fms[..|fms| - 1], category, leaf);
      var c := Category(fms[|fms| - 1], category);
      if |c| > 0 then front + [Dict.GetOr(c, leaf, 0.0)] else front
  }

  /** How many files report a non-empty `category`. */
  function Reporting(fms: seq<Metrics>, category: string): nat
  {
    if |fms| == 0 then 0
    else Reporting(fms[..|fms| - 1], category) + (if |Category(fms[|fms| - 1], category)| > 0 then 1 else 0)
  }

  /** Sum of leaf `leaf` over the files reporting `category`, a missing leaf counting 0. */
  function LeafTotal(fms: seq<Metrics>, category: string, leaf: string): real
  {
    if |fms| == 0 then 0.0
    else LeafTotal(fms[..|fms| - 1], category, leaf) + Dict.GetOr(Category(fms[|fms| - 1], category), leaf, 0.0)
  }

  /** The averaged list has one entry per reporting file and adds up to the leaf total. */
  lemma {:induction false} ScoresSpec(fms: seq<Metrics>, category: string, leaf: string)
    ensures |Scores(fms, category, leaf)| == Reporting(fms, category)
    ensures SumReal(Scores(fms, category, leaf)) == LeafTotal(fms, category, leaf)
    decreases |fms|
  {
    if |fms| > 0 {
      var front := fms[..|fms| - 1];
      ScoresSpec(front, category, leaf);
      var c := Category(fms[|fms| - 1], category);
      if |c| > 0 {
        SumRealAppend(Scores(front, category, leaf), [Dict.GetOr(c, leaf, 0.0)]);
      } else {
        assert c == [];
      }
    }
  }

  /** `self.metrics[category][leaf] = v`. */
  function SetLeaf(m: Metrics, category: string, leaf: string, v: real): Metrics
  {
    Dict.Put(m, category, Dict.Put(Category(m, category), leaf, v))
  }

  /** One step: average `source` over the reporting files into `target`, or leave the metrics alone. */
  function AggregateStep(m: Metrics, fms: seq<Metrics>, rn: Rename): Metrics
  {
    var s := Scores(fms, rn.category, rn.source);
    if |s| > 0 then SetLeaf(m, rn.category, rn.target, Mean(s)) else m
  }

  function AggregateAll(m: Metrics, fms: seq<Metrics>, rns: seq<Rename>): Metrics
    decreases |rns|
  {
    if |rns| == 0 then m else AggregateAll(AggregateStep(m, fms, rns[0]), fms, rns[1..])
  }

  /** `LanguageAnalyzer.aggregate_metrics`. */
  function AggregateMetrics(m: Metrics, fms: seq<Metrics>): Metrics
  {
    if |fms| == 0 then m else AggregateAll(m, fms, Renames)
  }

  /** Aggregation writes only inside existing categories: the key list is unchanged. */
  lemma {:induction false} AggregateAllKeepsKeys(m: Metrics, fms: seq<Metrics>, rns: seq<Rename>)
    requires forall k :: 0 <= k < |rns| ==> Dict.HasKey(m, rns[k].category)
    ensures Dict.Keys(AggregateAll(m, fms, rns)) == Dict.Keys(m)
    decreases |rns|
  {
    if |rns| > 0 {
      var m' := AggregateStep(m, fms, rns[0]);
      assert Dict.Keys(m') == Dict.Keys(m);
      assert forall k :: 0 <= k < |rns| - 1 ==> rns[1..][k] == rns[k + 1];
      AggregateAllKeepsKeys(m', fms, rns[1..]);
    }
  }

  lemma AggregateKeepsKeys(m: Metrics, fms: seq<Metrics>)
    requires HasCategories(m)
    ensures Dict.Keys(AggregateMetrics(m, fms)) == Dict.Keys(m)
  {
    RenamesInCategories();
    AggregateAllKeepsKeys(m, fms, Renames);
  }

  /** Every step names one of the eight categories. */
  lemma RenamesInCategories()
    ensures forall k :: 0 <= k < |Renames| ==> Renames[k].category in Categories
  {
    var r, c := Renames, Categories;
    assert r[0].category == c[0] && r[1].category == c[1] && r[2].category == c[3] && r[3].category == c[2];
    assert r[4].category == c[4] && r[5].category == c[5] && r[6].category == c[6] && r[7].category == c[7];
  }

  /** Steps on other categories leave `category` alone. */
  lemma {:induction false} AggregateAllOther(m: Metrics, fms: seq<Metrics>, rns: seq<Rename>, category: string)
    requires forall k :: 0 <= k < |rns| ==> rns[k].category != category
    ensures Dict.Get(AggregateAll(m, fms, rns), category) == Dict.Get(m, category)
    decreases |rns|
  {
    if |rns| > 0 {
      assert forall k :: 0 <= k < |rns| - 1 ==> rns[1..][k] == rns[k + 1];
      AggregateAllOther(AggregateStep(m, fms, rns[0]), fms, rns[1..], category);
    }
  }

  /** The eight steps write eight different categories. */
  lemma RenamesDistinct()
    ensures forall i, j :: 0 <= i < j < |Renames| ==> Renames[i].category != Renames[j].category
  {
  }

  /** What one step does to its own category. */
  lemma StepLeaf(m: Metrics, fms: seq<Metrics>, rn: Rename)
    ensures var n := Reporting(fms, rn.category);
      var out := Category(AggregateStep(m, fms, rn), rn.category);
      && (n > 0 ==> Dict.Get(out, rn.target) == Some(LeafTotal(fms, rn.category, rn.source) / (n as real)))
      && (n > 0 ==> forall l :: l != rn.target ==> Dict.Get(out, l) == Dict.Get(Category(m, rn.category), l))
      && (n == 0 ==> AggregateStep(m, fms, rn) == m)
  {
    ScoresSpec(fms, rn.category, rn.source);
    var s := Scores(fms, rn.category, rn.source);
    if |s| > 0 {
      var c' := Dict.Put(Category(m, rn.category), rn.target, Mean(s));
      assert Dict.Get(AggregateStep(m, fms, rn), rn.category) == Some(c');
      assert Category(AggregateStep(m, fms, rn), rn.category) == c';
    }
  }

  /**
   The leaf written for step `k`: when some file reports the category, its
   target leaf is the mean of the source leaf over the reporting files (a
   missing leaf counting 0) and the category's other leaves are kept; when no
   file reports it, the category is untouched.
   */
  lemma AggregateLeaf(m: Metrics, fms: seq<Metrics>, k: nat)
    requires |fms| > 0 && k < |Renames|
    ensures var rn := Renames[k];
      var n := Reporting(fms, rn.category);
      var out := Category(AggregateMetrics(m, fms), rn.category);
      && (n > 0 ==> Dict.Get(out, rn.target) == Some(LeafTotal(fms, rn.category, rn.source) / (n as real)))
      && (n > 0 ==> forall l :: l != rn.target ==> Dict.Get(out, l) == Dict.Get(Category(m, rn.category), l))
      && (n == 0 ==> Dict.Get(AggregateMetrics(m, fms), rn.category) == Dict.Get(m, rn.category))
  {
    RenamesDistinct();
    var before := AggregateAllAt(m, fms, Renames, k);
    StepLeaf(before, fms, Renames[k]);
  }

  /** Only step `k` of a run touches its category, when no other step names it. */
  lemma AggregateAllAt(m: Metrics, fms: seq<Metrics>, rns: seq<Rename>, k: nat) returns (before: Metrics)
    requires k < |rns|
    requires forall j :: 0 <= j < |rns| && j != k ==> rns[j].category != rns[k].category
    ensures Dict.Get(before, rns[k].category) == Dict.Get(m, rns[k].category)
    ensures Dict.Get(AggregateAll(m, fms, rns), rns[k].category) == Dict.Get(AggregateStep(before, fms, rns[k]), rns[k].category)
  {
    var category := rns[k].category;
    before := AggregateAll(m, fms, rns[..k]);
    var after := AggregateStep(before, fms, rns[k]);
    AggregateSplit(m, fms, rns, k);
    assert forall j :: 0 <= j < k ==> rns[..k][j] == rns[j];
    AggregateAllOther(m, fms, rns[..k], category);
    var rest := rns[k + 1..];
    assert forall j :: 0 <= j < |rest| ==> rest[j] == rns[j + k + 1];
    AggregateAllOther(after, fms, rest, category);
  }

  /** Running the steps before `k`, then step `k`, then the rest, is running them all. */
  lemma {:induction false} AggregateSplit(m: Metrics, fms: seq<Metrics>, rns: seq<Rename>, k: nat)
    requires k < |rns|
    ensures AggregateAll(m, fms, rns) == AggregateAll(AggregateStep(AggregateAll(m, fms, rns[..k]), fms, rns[k]), fms, rns[k + 1..])
    decreases k
  {
    if k > 0 {
      AggregateSplit(AggregateStep(m, fms, rns[0]), fms, rns[1..], k - 1);
      assert rns[1..][..k - 1] == rns[1..k];
      assert rns[1..][k - 1] == rns[k];
      assert rns[1..][k..] == rns[k + 1..];
      assert AggregateAll(m, fms, rns[..k]) == AggregateAll(AggregateStep(m, fms, rns[0]), fms, rns[1..k]);
    }
  }

  /** Every leaf lies in [lo, hi]. */
  ghost predicate LeavesWithin(m: Metrics, lo: real, hi: real)
  {
    forall i, j :: 0 <= i < |m| && 0 <= j < |m[i].1| ==> lo <= m[i].1[j].1 <= hi
  }

  /** A category's leaves come from the metrics, so they keep the metrics' bounds. */
  lemma CategoryWithin(m: Metrics, category: string, lo: real, hi: real)
    requires LeavesWithin(m, lo, hi)
    ensures forall j :: 0 <= j < |Category(m, category)| ==> lo <= Category(m, category)[j].1 <= hi
  {
    if Dict.HasKey(m, category) {
      assert Category(m, category) == m[Dict.IndexOf(m, category)].1;
    }
  }

  /** Files whose leaves lie in [0, 1] give averaged scores in [0, 1]. */
  lemma {:induction false} ScoresWithin(fms: seq<Metrics>, category: string, leaf: string)
    requires forall f :: 0 <= f < |fms| ==> LeavesWithin(fms[f], 0.0, 1.0)
    ensures forall i :: 0 <= i < |Scores(fms, category, leaf)| ==> 0.0 <= Scores(fms, category, leaf)[i] <= 1.0
    decreases |fms|
  {
    if |fms| > 0 {
      var front := fms[..|fms| - 1];
      assert forall f :: 0 <= f < |front| ==> front[f] == fms[f];
      ScoresWithin(front, category, leaf);
      var c := Category(fms[|fms| - 1], category);
      CategoryWithin(fms[|fms| - 1], category, 0.0, 1.0);
      if Dict.HasKey(c, leaf) {
        assert Dict.GetOr(c, leaf, 0.0) == c[Dict.IndexOf(c, leaf)].1;
      }
    }
  }

  /** Writing a value in [lo, hi] keeps every leaf in [lo, hi]. */
  lemma SetLeafWithin(m: Metrics, category: string, leaf: string, v: real, lo: real, hi: real)
    requires LeavesWithin(m, lo, hi) && lo <= v <= hi
    ensures LeavesWithin(SetLeaf(m, category, leaf, v), lo, hi)
  {
    var c := Category(m, category);
    CategoryWithin(m, category, lo, hi);
    var c' := Dict.Put(c, leaf, v);
    Dict.PutEntries(c, leaf, v);
    assert forall j :: 0 <= j < |c'| ==> lo <= c'[j].1 <= hi;
    var m' := Dict.Put(m, category, c');
    Dict.PutEntries(m, category, c');
    forall i, j | 0 <= i < |m'| && 0 <= j < |m'[i].1|
      ensures lo <= m'[i].1[j].1 <= hi
    {
      if m'[i] != (category, c') {
        var p :| 0 <= p < |m| && m[p] == m'[i];
      }
    }
  }

  lemma {:induction false} AggregateAllWithin(m: Metrics, fms: seq<Metrics>, rns: seq<Rename>)
    requires LeavesWithin(m, 0.0, 1.0)
    requires forall f :: 0 <= f < |fms| ==> LeavesWithin(fms[f], 0.0, 1.0)
    ensures LeavesWithin(AggregateAll(m, fms, rns), 0.0, 1.0)
    decreases |rns|
  {
    if |rns| > 0 {
      var s := Scores(fms, rns[0].category, rns[0].source);
      if |s| > 0 {
        ScoresWithin(fms, rns[0].category, rns[0].source);
        MeanBounds(s, 0.0, 1.0);
        SetLeafWithin(m, rns[0].category, rns[0].target, Mean(s), 0.0, 1.0);
      }
      AggregateAllWithin(AggregateStep(m, fms, rns[0]), fms, rns[1..]);
    }
  }

  /** Averaging file metrics in [0, 1] into metrics in [0, 1] keeps them in [0, 1]. */
  lemma AggregateWithin(m: Metrics, fms: seq<Metrics>)
    requires LeavesWithin(m, 0.0, 1.0)
    requires forall f :: 0 <= f < |fms| ==> LeavesWithin(fms[f], 0.0, 1.0)
    ensures LeavesWithin(AggregateMetrics(m, fms), 0.0, 1.0)
  {
    AggregateAllWithin(m, fms, Renames);
  }

  // ---------------------------------------------------------------------
  // calculate_empathy_score / get_summary
  // ---------------------------------------------------------------------

  /** The weight of each category in the empathy score. */
  const Weights: seq<(string, real)> := [
    ("nombres", 0.15), ("documentacion", 0.15), ("modularidad", 0.15), ("complejidad", 0.15),
    ("manejo_errores", 0.10), ("pruebas", 0.10), ("seguridad", 0.10), ("consistencia_estilo", 0.10)]

  /** The weights cover exactly the eight categories and add up to 1. */
  lemma WeightsSumToOne()
    ensures Dict.Keys(Weights) == Categories
    ensures SumReal(Dict.Values(Weights)) == 1.0
  {
    var v := Dict.Values(Weights);
    assert v == [0.15, 0.15, 0.15, 0.15, 0.10, 0.10, 0.10, 0.10];
    assert SumReal(v[..1]) == 0.15 by { assert v[..1][..0] == []; }
    assert SumReal(v[..2]) == 0.30 by { assert v[..2][..1] == v[..1]; }
    assert SumReal(v[..3]) == 0.45 by { assert v[..3][..2] == v[..2]; }
    assert SumReal(v[..4]) == 0.60 by { assert v[..4][..3] == v[..3]; }
    assert SumReal(v[..5]) == 0.70 by { assert v[..5][..4] == v[..4]; }
    assert SumReal(v[..6]) == 0.80 by { assert v[..6][..5] == v[..5]; }
    assert SumReal(v[..7]) == 0.90 by { assert v[..7][..6] == v[..6]; }
    assert SumReal(v) == 1.0 by { assert v[..8] == v; }
    assert Dict.Keys(Weights) == Categories;
  }

  /** `avg * weight` for each weighted category that holds at least one leaf. */
  function WeightedScores(m: Metrics, ws: seq<(string, real)>): seq<real>
  {
    if |ws| == 0 then []
    else
      var front := WeightedScores(m, ws[..|ws| - 1]);
      var values := Dict.Values(Category(m, ws[|ws| - 1].0));
      if |values| > 0 then front + [Mean(values) * ws[|ws| - 1].1] else front
  }

  /** The weights of the categories that hold at least one leaf. */
  function ActiveWeights(m: Metrics, ws: seq<(string, real)>): seq<real>
  {
    if |ws| == 0 then []
    else
      var front := ActiveWeights(m, ws[..|ws| - 1]);
      if |Category(m, ws[|ws| - 1].0)| > 0 then front + [ws[|ws| - 1].1] else front
  }

  /** `LanguageAnalyzer.calculate_empathy_score`. */
  function EmpathyScore(m: Metrics): real
  {
    SumReal(WeightedScores(m, Weights))
  }

  /** A weight scaled by a factor in [0, 1] stays between 0 and the weight. */
  lemma ScaledWithin(a: real, w: real)
    requires 0.0 <= a <= 1.0 && w >= 0.0
    ensures 0.0 <= a * w <= w
  {
    assert a * w <= 1.0 * w;
  }

  /** What the last weighted category adds to the score. */
  function LastTerm(m: Metrics, ws: seq<(string, real)>): real
    requires |ws| > 0
  {
    var values := Dict.Values(Category(m, ws[|ws| - 1].0));
    if |values| > 0 then Mean(values) * ws[|ws| - 1].1 else 0.0
  }

  lemma SumStep(m: Metrics, ws: seq<(string, real)>)
    requires |ws| > 0
    ensures SumReal(WeightedScores(m, ws)) == SumReal(WeightedScores(m, ws[..|ws| - 1])) + LastTerm(m, ws)
    ensures SumReal(ActiveWeights(m, ws)) == SumReal(ActiveWeights(m, ws[..|ws| - 1]))
      + (if |Category(m, ws[|ws| - 1].0)| > 0 then ws[|ws| - 1].1 else 0.0)
  {
    var front := ws[..|ws| - 1];
    var c := Category(m, ws[|ws| - 1].0);
    if |c| > 0 {
      var t := LastTerm(m, ws);
      var w := ws[|ws| - 1].1;
      SumRealAppend(WeightedScores(m, front), [t]);
      SumRealAppend(ActiveWeights(m, front), [w]);
      assert SumReal([t]) == t by { assert [t][..0] == []; }
      assert SumReal([w]) == w by { assert [w][..0] == []; }
    }
  }

  predicate UnitLeaves(c: Leaves)
  {
    forall j :: 0 <= j < |c| ==> 0.0 <= c[j].1 <= 1.0
  }

  /** A category with leaves in [0, 1] adds between 0 and its weight. */
  lemma LastTermWithin(m: Metrics, ws: seq<(string, real)>)
    requires |ws| > 0 && ws[|ws| - 1].1 >= 0.0
    requires UnitLeaves(Category(m, ws[|ws| - 1].0))
    ensures 0.0 <= LastTerm(m, ws) <= (if |Category(m, ws[|ws| - 1].0)| > 0 then ws[|ws| - 1].1 else 0.0)
  {
    var c := Category(m, ws[|ws| - 1].0);
    var values := Dict.Values(c);
    if |c| > 0 {
      var w := ws[|ws| - 1].1;
      assert forall i :: 0 <= i < |values| ==> values[i] == c[i].1;
      MeanBounds(values, 0.0, 1.0);
      var mu := Mean(values);
      ScaledWithin(mu, w);
      assert LastTerm(m, ws) == mu * w;
    } else {
      assert values == [];
    }
  }

  /** With leaves in [0, 1], the score lies between 0 and the total weight of the non-empty categories. */
  lemma {:induction false} WeightedWithin(m: Metrics, ws: seq<(string, real)>)
    requires LeavesWithin(m, 0.0, 1.0)
    requires forall i :: 0 <= i < |ws| ==> ws[i].1 >= 0.0
    ensures 0.0 <= SumReal(WeightedScores(m, ws)) <= SumReal(ActiveWeights(m, ws))
    decreases |ws|
  {
    if |ws| > 0 {
      var front := ws[..|ws| - 1];
      assert forall i :: 0 <= i < |front| ==> front[i] == ws[i];
      WeightedWithin(m, front);
      SumStep(m, ws);
      CategoryWithin(m, ws[|ws| - 1].0, 0.0, 1.0);
      LastTermWithin(m, ws);
    }
  }

  /** The weights of the non-empty categories add up to at most all the weights. */
  lemma {:induction false} ActiveWithinTotal(m: Metrics, ws: seq<(string, real)>)
    requires forall i :: 0 <= i < |ws| ==> ws[i].1 >= 0.0
    ensures SumReal(ActiveWeights(m, ws)) <= SumReal(Dict.Values(ws))
    decreases |ws|
  {
    if |ws| > 0 {
      var front := ws[..|ws| - 1];
      assert forall i :: 0 <= i < |front| ==> front[i] == ws[i];
      ActiveWithinTotal(m, front);
      SumStep(m, ws);
      SumRealSnoc(Dict.Values(front), ws[|ws| - 1].1);
    }
  }

  /** The empathy score of metrics whose leaves lie in [0, 1] lies in [0, 1]. */
  lemma EmpathyScoreWithin(m: Metrics)
    requires LeavesWithin(m, 0.0, 1.0)
    ensures 0.0 <= EmpathyScore(m) <= SumReal(ActiveWeights(m, Weights)) <= 1.0
  {
    WeightsSumToOne();
    WeightedWithin(m, Weights);
    ActiveWithinTotal(m, Weights);
  }

  lemma ScoreBounded(m: Metrics)
    ensures LeavesWithin(m, 0.0, 1.0) ==> 0.0 <= EmpathyScore(m) <= 1.0
  {
    if LeavesWithin(m, 0.0, 1.0) {
      EmpathyScoreWithin(m);
    }
  }

  /** Categories without leaves contribute nothing: with every category empty, the score is 0. */
  lemma {:induction false} EmptyCategoriesScoreZero(m: Metrics, ws: seq<(string, real)>)
    requires forall i :: 0 <= i < |ws| ==> Category(m, ws[i].0) == []
    ensures SumReal(WeightedScores(m, ws)) == 0.0
    decreases |ws|
  {
    if |ws| > 0 {
      var front := ws[..|ws| - 1];
      assert forall i :: 0 <= i < |front| ==> front[i] == ws[i];
      EmptyCategoriesScoreZero(m, front);
    }
  }

  /** A fresh analyzer scores 0. */
  lemma NewAnalyzerScoresZero()
    ensures EmpathyScore(NewAnalyzer().metrics) == 0.0
  {
    var m := NewAnalyzer().metrics;
    forall i | 0 <= i < |Weights|
      ensures Category(m, Weights[i].0) == []
    {
      if Dict.HasKey(m, Weights[i].0) {
        assert Category(m, Weights[i].0) == m[Dict.IndexOf(m, Weights[i].0)].1;
      }
    }
    EmptyCategoriesScoreZero(m, Weights);
  }

  /** `get_summary()`. */
  datatype Summary = Summary(language: string, totalFiles: nat, totalLines: nat, metrics: Metrics, empathyScore: real)

  /** `LanguageAnalyzer.get_summary`: the counters and metrics as they are, and the score. */
  function GetSummary(language: string, a: Analyzer): (r: Summary)
    ensures r.language == language && r.totalFiles == a.totalFiles && r.totalLines == a.totalLines && r.metrics == a.metrics
    ensures r.empathyScore == EmpathyScore(a.metrics)
    ensures LeavesWithin(a.metrics, 0.0, 1.0) ==> 0.0 <= r.empathyScore <= 1.0
  {
    ScoreBounded(a.metrics);
    Summary(language, a.totalFiles, a.totalLines, a.metrics, EmpathyScore(a.metrics))
  }
}
