/**
 The TypeScript analyzer layered over the JavaScript one. The JavaScript
 analyzer's result and every regular-expression match count are inputs (a
 `Scan` of one file); what is modelled is how the layer combines them: the
 type-coverage ratio, the `typescript` entry, the capped bonuses to
 documentation and security, the extended function list and the style mean.
 */
module TypeScript {
  import opened Common
  import opened Strings
  import Dict
  import LanguageBase

  type Metrics = LanguageBase.Metrics

  /** `get_file_extensions()`. */
  const Extensions: seq<string> := [".ts", ".tsx"]

  /** `get_language_name()`. */
  const LanguageName: string := "TypeScript"

  /** A TypeScript analyzer takes exactly the `.ts` and `.tsx` files. */
  lemma ShouldAnalyzeTypeScript(path: string)
    ensures LanguageBase.ShouldAnalyzeFile(Extensions, path) <==> EndsWith(path, ".ts") || EndsWith(path, ".tsx")
  {
    LanguageBase.ShouldAnalyzeFileSpec(Extensions, path);
  }

  // ---------------------------------------------------------------------
  // _extract_functions
  // ---------------------------------------------------------------------

  /** One entry of a function list: `{'name': ..., 'type': ..., 'start': ...}`. */
  datatype FunctionInfo = FunctionInfo(name: string, kind: string, start: nat)

  /** A regular-expression match: the captured name and the match's start offset. */
  type Match = (string, nat)

  function Tagged(ms: seq<Match>, kind: string): (fs: seq<FunctionInfo>)
    ensures |fs| == |ms|
    ensures forall i :: 0 <= i < |ms| ==> fs[i] == FunctionInfo(ms[i].0, kind, ms[i].1)
  {
    if |ms| == 0 then [] else Tagged(ms[..|ms| - 1], kind) + [FunctionInfo(ms[|ms| - 1].0, kind, ms[|ms| - 1].1)]
  }

  /**
   `TypeScriptAnalyzer._extract_functions`: the JavaScript list, then the
   generic functions, then the decorated methods, in match order.
   */
  function ExtractFunctions(base: seq<FunctionInfo>, generic: seq<Match>, decorated: seq<Match>): (fs: seq<FunctionInfo>)
    ensures |fs| == |base| + |generic| + |decorated|
    ensures fs[..|base|] == base
    ensures forall i :: 0 <= i < |generic| ==> fs[|base| + i] == FunctionInfo(generic[i].0, "generic_function", generic[i].1)
    ensures forall i :: 0 <= i < |decorated| ==>
      fs[|base| + |generic| + i] == FunctionInfo(decorated[i].0, "decorated_method", decorated[i].1)
  {
    base + Tagged(generic, "generic_function") + Tagged(decorated, "decorated_method")
  }

  // ---------------------------------------------------------------------
  // _calculate_type_coverage
  // ---------------------------------------------------------------------

  /** The pieces of one parameter list that carry an annotation (`':' in param`). */
  function Annotated(pieces: seq<string>): (n: nat)
    ensures n <= |pieces|
  {
    if |pieces| == 0 then 0
    else Annotated(pieces[..|pieces| - 1]) + (if ':' in pieces[|pieces| - 1] then 1 else 0)
  }

  /** Parameters of one captured list: none when it strips to nothing, otherwise one per comma-separated piece. */
  function ListParams(params: string): nat
  {
    if Strip(params) == "" then 0 else |Split(params, ',')|
  }

  function ListTyped(params: string): nat
  {
    if Strip(params) == "" then 0 else Annotated(Split(params, ','))
  }

  function TotalParams(lists: seq<string>): nat
  {
    if |lists| == 0 then 0 else TotalParams(lists[..|lists| - 1]) + ListParams(lists[|lists| - 1])
  }

  function TypedParams(lists: seq<string>): nat
  {
    if |lists| == 0 then 0 else TypedParams(lists[..|lists| - 1]) + ListTyped(lists[|lists| - 1])
  }

  /** A non-blank parameter list holds one parameter more than it has commas. */
  lemma ListParamsCount(params: string)
    ensures ListParams(params) == if IsBlank(params) then 0 else CountChar(params, ',') + 1
  {
  }

  /** Typed parameters are among the parameters. */
  lemma {:induction false} TypedWithinTotal(lists: seq<string>)
    ensures TypedParams(lists) <= TotalParams(lists)
    decreases |lists|
  {
    if |lists| > 0 {
      TypedWithinTotal(lists[..|lists| - 1]);
      var params := lists[|lists| - 1];
      if Strip(params) != "" {
        assert Annotated(Split(params, ',')) <= |Split(params, ',')|;
      }
    }
  }

  /** The inner loop over the pieces of one parameter list. */
  method CountPieces(pieces: seq<string>) returns (typed: nat, total: nat)
    ensures total == |pieces| && typed == Annotated(pieces)
  {
    typed, total := 0, 0;
    var j := 0;
    while j < |pieces|
      invariant 0 <= j <= |pieces|
      invariant total == j && typed == Annotated(pieces[..j])
    {
      total := total + 1;
      if ':' in pieces[j] {
        typed := typed + 1;
      }
      assert pieces[..j + 1][..j] == pieces[..j];
      j := j + 1;
    }
    assert pieces[..j] == pieces;
  }

  lemma ParamsStep(lists: seq<string>, i: nat)
    requires i < |lists|
    ensures TotalParams(lists[..i + 1]) == TotalParams(lists[..i]) + ListParams(lists[i])
    ensures TypedParams(lists[..i + 1]) == TypedParams(lists[..i]) + ListTyped(lists[i])
  {
    assert lists[..i + 1][..i] == lists[..i];
  }

  /** The parameter loop of `_calculate_type_coverage`. */
  method CountParams(lists: seq<string>) returns (typed: nat, total: nat)
    ensures typed == TypedParams(lists) && total == TotalParams(lists)
    ensures typed <= total
  {
    typed, total := 0, 0;
    var i := 0;
    while i < |lists|
      invariant 0 <= i <= |lists|
      invariant typed == TypedParams(lists[..i]) && total == TotalParams(lists[..i])
    {
      var params := lists[i];
      ParamsStep(lists, i);
      if Strip(params) != "" {
        var t, n := CountPieces(Split(params, ','));
        typed, total := typed + t, total + n;
      }
      i := i + 1;
    }
    assert lists[..i] == lists;
    TypedWithinTotal(lists);
  }

  /**
   What the regular expressions find in one file: the captured parameter
   lists, the typed variable declarations, the typed return types, all
   variable declarations, the JavaScript function list with the generic and
   decorated matches, and the interface, type-alias and enum counts.
   */
  datatype Scan = Scan(
    paramLists: seq<string>,
    typedVars: nat,
    typedReturns: nat,
    variables: nat,
    baseFunctions: seq<FunctionInfo>,
    generic: seq<Match>,
    decorated: seq<Match>,
    interfaces: nat,
    typeAliases: nat,
    enums: nat)

  function TypedItems(s: Scan): nat
  {
    TypedParams(s.paramLists) + s.typedVars + s.typedReturns
  }

  function TotalItems(s: Scan): nat
  {
    TotalParams(s.paramLists) + s.variables + |ExtractFunctions(s.baseFunctions, s.generic, s.decorated)|
  }

  /** `_calculate_type_coverage`: typed items over items, 0.0 when there are none. */
  function TypeCoverage(s: Scan): (r: real)
    ensures r >= 0.0
    ensures TotalItems(s) == 0 ==> r == 0.0
  {
    var total := TotalItems(s);
    if total > 0 then Ratio(TypedItems(s), total) else 0.0
  }

  /** With at least one item, the coverage times the item count is the typed count. */
  lemma CoverageRatio(s: Scan)
    requires TotalItems(s) > 0
    ensures TypeCoverage(s) * (TotalItems(s) as real) == TypedItems(s) as real
  {
    RatioTimesEq(TypeCoverage(s), TypedItems(s), TotalItems(s));
  }

  /**
   The ratio reaches at most 1 when typed variables and typed returns are no
   more than the variables and functions they were found among; the source
   does not guarantee this of its patterns.
   */
  lemma CoverageAtMostOne(s: Scan)
    requires s.typedVars <= s.variables
    requires s.typedReturns <= |ExtractFunctions(s.baseFunctions, s.generic, s.decorated)|
    ensures TypeCoverage(s) <= 1.0
  {
    TypedWithinTotal(s.paramLists);
    if TotalItems(s) > 0 {
      RatioWithin(TypedItems(s) as real, TotalItems(s) as real);
    }
  }

  // ---------------------------------------------------------------------
  // analyze_file
  // ---------------------------------------------------------------------

  /** `min(1.0, b + x)`: a bonus capped at 1. */
  function Bump(b: real, x: real): (r: real)
    ensures r <= 1.0
    ensures b <= 1.0 && x >= 0.0 ==> b <= r
    ensures b + x <= 1.0 ==> r == b + x
  {
    if 1.0 <= b + x then 1.0 else b + x
  }

  /** The `typescript` entry of the result. */
  function Entry(coverage: real, s: Scan): LanguageBase.Leaves
  {
    [("type_coverage", coverage), ("interfaces", s.interfaces as real),
     ("type_aliases", s.typeAliases as real), ("enums", s.enums as real)]
  }

  /** The leaf `category.leaf` as `.get(category, {}).get(leaf, 0)` reads it. */
  function LeafOf(m: Metrics, category: string, leaf: string): real
  {
    Dict.GetOr(LanguageBase.Category(m, category), leaf, 0.0)
  }

  /**
   `metrics[category][leaf] = min(1.0, current + x)`: the subscript raises
   `KeyError` when `category` is missing.
   */
  function Boost(m: Metrics, category: string, leaf: string, x: real): Result<Metrics>
  {
    if !Dict.HasKey(m, category) then Err("KeyError: '" + category + "'")
    else Ok(LanguageBase.SetLeaf(m, category, leaf, Bump(LeafOf(m, category, leaf), x)))
  }

  /** The metrics with the `typescript` entry added, before the bonuses. */
  function WithEntry(base: Metrics, s: Scan): Metrics
  {
    Dict.Put(base, "typescript", Entry(TypeCoverage(s), s))
  }

  /** The documentation bonus, applied only above 0.7 coverage. */
  function Documented(m: Metrics, coverage: real): Result<Metrics>
  {
    if coverage > 0.7 then Boost(m, "documentacion", "cobertura", 0.2) else Ok(m)
  }

  /** The documentation bonus, then the security bonus. */
  function Bonuses(m: Metrics, coverage: real): Result<Metrics>
  {
    match Documented(m, coverage)
    case Err(e) => Err(e)
    case Ok(m') => Boost(m', "seguridad", "validacion", coverage * 0.2)
  }

  /** `TypeScriptAnalyzer.analyze_file` applied to the JavaScript result `base`. */
  function AnalyzeFile(base: Metrics, s: Scan): Result<Metrics>
  {
    Bonuses(WithEntry(base, s), TypeCoverage(s))
  }

  /** What a boost does: the leaf is bumped, the rest of the category and every other category are kept. */
  lemma BoostSpec(m: Metrics, category: string, leaf: string, x: real)
    ensures Boost(m, category, leaf, x).Err? <==> !Dict.HasKey(m, category)
    ensures Boost(m, category, leaf, x).Ok? ==>
      && Dict.Get(LanguageBase.Category(Boost(m, category, leaf, x).value, category), leaf)
         == Some(Bump(LeafOf(m, category, leaf), x))
      && (forall l :: l != leaf ==>
           Dict.Get(LanguageBase.Category(Boost(m, category, leaf, x).value, category), l)
           == Dict.Get(LanguageBase.Category(m, category), l))
      && (forall c :: c != category ==> Dict.Get(Boost(m, category, leaf, x).value, c) == Dict.Get(m, c))
      && Dict.Keys(Boost(m, category, leaf, x).value) == Dict.Keys(m)
  {
    if Dict.HasKey(m, category) {
      var c' := Dict.Put(LanguageBase.Category(m, category), leaf, Bump(LeafOf(m, category, leaf), x));
      assert Dict.Get(Boost(m, category, leaf, x).value, category) == Some(c');
    }
  }

  /** The documentation step leaves security and every category but `documentacion` alone. */
  lemma DocumentedSpec(m: Metrics, coverage: real)
    ensures Documented(m, coverage).Err? <==> coverage > 0.7 && !Dict.HasKey(m, "documentacion")
    ensures Documented(m, coverage).Ok? ==>
      && (forall c :: c != "documentacion" ==> Dict.Get(Documented(m, coverage).value, c) == Dict.Get(m, c))
      && Dict.Keys(Documented(m, coverage).value) == Dict.Keys(m)
  {
    BoostSpec(m, "documentacion", "cobertura", 0.2);
  }

  /** The layer fails exactly when a category it writes into is missing from the JavaScript result. */
  lemma AnalyzeFileFails(base: Metrics, s: Scan)
    ensures AnalyzeFile(base, s).Err? <==>
      !Dict.HasKey(base, "seguridad") || (TypeCoverage(s) > 0.7 && !Dict.HasKey(base, "documentacion"))
  {
    var coverage := TypeCoverage(s);
    var m := WithEntry(base, s);
    assert Dict.Get(m, "documentacion") == Dict.Get(base, "documentacion");
    assert Dict.Get(m, "seguridad") == Dict.Get(base, "seguridad");
    DocumentedSpec(m, coverage);
    if Documented(m, coverage).Ok? {
      var m' := Documented(m, coverage).value;
      assert Dict.Get(m', "seguridad") == Dict.Get(m, "seguridad");
      BoostSpec(m', "seguridad", "validacion", coverage * 0.2);
    }
  }

  /** The two bonuses touch only `documentacion` and `seguridad`, and add no key. */
  lemma BonusesKeep(m: Metrics, coverage: real)
    requires Bonuses(m, coverage).Ok?
    ensures forall c :: c != "documentacion" && c != "seguridad" ==> Dict.Get(Bonuses(m, coverage).value, c) == Dict.Get(m, c)
    ensures Dict.Keys(Bonuses(m, coverage).value) == Dict.Keys(m)
  {
    DocumentedSpec(m, coverage);
    var m' := Documented(m, coverage).value;
    var out := Boost(m', "seguridad", "validacion", coverage * 0.2);
    assert Bonuses(m, coverage) == out;
    BoostSpec(m', "seguridad", "validacion", coverage * 0.2);
    forall c | c != "documentacion" && c != "seguridad"
      ensures Dict.Get(out.value, c) == Dict.Get(m, c)
    {
      assert Dict.Get(out.value, c) == Dict.Get(m', c);
    }
  }

  /** On success the key order is the JavaScript one, `typescript` appended when new. */
  lemma AnalyzeFileKeys(base: Metrics, s: Scan)
    requires AnalyzeFile(base, s).Ok?
    ensures Dict.HasKey(base, "typescript") ==> Dict.Keys(AnalyzeFile(base, s).value) == Dict.Keys(base)
    ensures !Dict.HasKey(base, "typescript") ==> Dict.Keys(AnalyzeFile(base, s).value) == Dict.Keys(base) + ["typescript"]
  {
    BonusesKeep(WithEntry(base, s), TypeCoverage(s));
  }

  /**
   On success the result holds the `typescript` entry, and every category
   other than `typescript`, `documentacion` and `seguridad` is the JavaScript
   one.
   */
  lemma AnalyzeFileKeeps(base: Metrics, s: Scan)
    requires AnalyzeFile(base, s).Ok?
    ensures Dict.Get(AnalyzeFile(base, s).value, "typescript") == Some(Entry(TypeCoverage(s), s))
    ensures forall c :: c != "typescript" && c != "documentacion" && c != "seguridad" ==>
      Dict.Get(AnalyzeFile(base, s).value, c) == Dict.Get(base, c)
  {
    var m := WithEntry(base, s);
    BonusesKeep(m, TypeCoverage(s));
    forall c | c != "typescript" && c != "documentacion" && c != "seguridad"
      ensures Dict.Get(AnalyzeFile(base, s).value, c) == Dict.Get(base, c)
    {
      assert Dict.Get(AnalyzeFile(base, s).value, c) == Dict.Get(m, c);
    }
  }

  /**
   The documentation bonus: with coverage above 0.7, `documentacion.cobertura`
   becomes `min(1.0, base + 0.2)` and the category's other leaves are kept;
   otherwise the whole category is the JavaScript one.
   */
  lemma AnalyzeFileDocumentation(base: Metrics, s: Scan)
    requires AnalyzeFile(base, s).Ok?
    ensures var out := AnalyzeFile(base, s).value;
      && (TypeCoverage(s) > 0.7 ==>
           Dict.Get(LanguageBase.Category(out, "documentacion"), "cobertura")
           == Some(Bump(LeafOf(base, "documentacion", "cobertura"), 0.2)))
      && (TypeCoverage(s) > 0.7 ==> forall l :: l != "cobertura" ==>
           Dict.Get(LanguageBase.Category(out, "documentacion"), l) == Dict.Get(LanguageBase.Category(base, "documentacion"), l))
      && (TypeCoverage(s) <= 0.7 ==> Dict.Get(out, "documentacion") == Dict.Get(base, "documentacion"))
  {
    var m := WithEntry(base, s);
    assert Dict.Get(m, "documentacion") == Dict.Get(base, "documentacion");
    assert LanguageBase.Category(m, "documentacion") == LanguageBase.Category(base, "documentacion");
    BonusesDocumentation(m, TypeCoverage(s));
  }

  /** The documentation bonus on any metrics: `cobertura` bumped above 0.7 coverage, the category kept otherwise. */
  lemma BonusesDocumentation(m: Metrics, coverage: real)
    requires Bonuses(m, coverage).Ok?
    ensures var out := Bonuses(m, coverage).value;
      && (coverage > 0.7 ==>
           Dict.Get(LanguageBase.Category(out, "documentacion"), "cobertura")
           == Some(Bump(LeafOf(m, "documentacion", "cobertura"), 0.2)))
      && (coverage > 0.7 ==> forall l :: l != "cobertura" ==>
           Dict.Get(LanguageBase.Category(out, "documentacion"), l) == Dict.Get(LanguageBase.Category(m, "documentacion"), l))
      && (coverage <= 0.7 ==> Dict.Get(out, "documentacion") == Dict.Get(m, "documentacion"))
  {
    var m' := Documented(m, coverage).value;
    if coverage > 0.7 {
      BoostSpec(m, "documentacion", "cobertura", 0.2);
    }
    BoostSpec(m', "seguridad", "validacion", coverage * 0.2);
    assert Dict.Get(Bonuses(m, coverage).value, "documentacion") == Dict.Get(m', "documentacion");
  }

  /** The security bonus, stated over any metrics holding `seguridad`. */
  lemma BonusesSecurity(m: Metrics, coverage: real)
    requires Bonuses(m, coverage).Ok?
    ensures var out := Bonuses(m, coverage).value;
      && Dict.Get(LanguageBase.Category(out, "seguridad"), "validacion")
         == Some(Bump(LeafOf(m, "seguridad", "validacion"), coverage * 0.2))
      && (forall l :: l != "validacion" ==>
           Dict.Get(LanguageBase.Category(out, "seguridad"), l) == Dict.Get(LanguageBase.Category(m, "seguridad"), l))
  {
    DocumentedSpec(m, coverage);
    var m' := Documented(m, coverage).value;
    assert LanguageBase.Category(m', "seguridad") == LanguageBase.Category(m, "seguridad");
    BoostSpec(m', "seguridad", "validacion", coverage * 0.2);
  }

  /**
   The security bonus: `seguridad.validacion` becomes
   `min(1.0, base + 0.2 * coverage)` and the category's other leaves are kept.
   */
  lemma AnalyzeFileSecurity(base: Metrics, s: Scan)
    requires AnalyzeFile(base, s).Ok?
    ensures var out := AnalyzeFile(base, s).value;
      && Dict.Get(LanguageBase.Category(out, "seguridad"), "validacion")
         == Some(Bump(LeafOf(base, "seguridad", "validacion"), TypeCoverage(s) * 0.2))
      && (forall l :: l != "validacion" ==>
           Dict.Get(LanguageBase.Category(out, "seguridad"), l) == Dict.Get(LanguageBase.Category(base, "seguridad"), l))
  {
    var m := WithEntry(base, s);
    assert LanguageBase.Category(m, "seguridad") == LanguageBase.Category(base, "seguridad");
    BonusesSecurity(m, TypeCoverage(s));
  }

  /** A security score in [0, 1] stays in [0, 1] and never drops. */
  lemma SecurityNeverDrops(b: real, s: Scan)
    requires 0.0 <= b <= 1.0
    ensures b <= Bump(b, TypeCoverage(s) * 0.2) <= 1.0
  {
  }

  // ---------------------------------------------------------------------
  // _calculate_style_consistency
  // ---------------------------------------------------------------------

  /** `name.startswith('I')`. */
  predicate IPrefixed(name: string)
  {
    StartsWith(name, "I")
  }

  /** `name[0].isupper()` on ASCII; the names come from `\w+`, so they are never empty. */
  predicate Capitalized(name: string)
  {
    |name| > 0 && 'A' <= name[0] <= 'Z'
  }

  function CountIPrefixed(names: seq<string>): (n: nat)
    ensures n <= |names|
  {
    if |names| == 0 then 0 else CountIPrefixed(names[..|names| - 1]) + (if IPrefixed(names[|names| - 1]) then 1 else 0)
  }

  function CountCapitalized(names: seq<string>): (n: nat)
    ensures n <= |names|
  {
    if |names| == 0 then 0 else CountCapitalized(names[..|names| - 1]) + (if Capitalized(names[|names| - 1]) then 1 else 0)
  }

  /** Interface naming: 1.0 when the `I` prefix is used (almost) always or (almost) never, 0.5 when mixed. */
  function InterfaceScore(names: seq<string>): (r: real)
    ensures r == 1.0 || r == 0.5
    ensures |names| == 0 ==> r == 1.0
  {
    if |names| == 0 then 1.0
    else
      var share := (CountIPrefixed(names) as real) / (|names| as real);
      if share > 0.8 || share < 0.2 then 1.0 else 0.5
  }

  /** Type naming: the share of PascalCase type names, 1.0 when there are none. */
  function TypeScore(names: seq<string>): (r: real)
    ensures 0.0 <= r <= 1.0
  {
    if |names| == 0 then 1.0 else (CountCapitalized(names) as real) / (|names| as real)
  }

  /** `TypeScriptAnalyzer._calculate_style_consistency`: the mean of the JavaScript score and the two naming scores. */
  function StyleConsistency(base: real, interfaces: seq<string>, types: seq<string>): (r: real)
    ensures 0.0 <= base <= 1.0 ==> 0.5 / 3.0 <= r <= 1.0
    ensures r == Mean([base, InterfaceScore(interfaces), TypeScore(types)])
  {
    MeanOfThree(base, InterfaceScore(interfaces), TypeScore(types));
    (base + InterfaceScore(interfaces) + TypeScore(types)) / 3.0
  }

  lemma {:induction false} AllIPrefixedCount(names: seq<string>)
    ensures CountIPrefixed(names) == |names| <==> forall i :: 0 <= i < |names| ==> IPrefixed(names[i])
    decreases |names|
  {
    if |names| > 0 {
      var front := names[..|names| - 1];
      AllIPrefixedCount(front);
      assert forall i :: 0 <= i < |front| ==> front[i] == names[i];
    }
  }

  lemma {:induction false} NoIPrefixedCount(names: seq<string>)
    ensures CountIPrefixed(names) == 0 <==> forall i :: 0 <= i < |names| ==> !IPrefixed(names[i])
    decreases |names|
  {
    if |names| > 0 {
      var front := names[..|names| - 1];
      NoIPrefixedCount(front);
      assert forall i :: 0 <= i < |front| ==> front[i] == names[i];
    }
  }

  /** A consistent convention, every interface `I`-prefixed or none, scores 1.0. */
  lemma ConsistentInterfacesScoreOne(names: seq<string>)
    requires (forall i :: 0 <= i < |names| ==> IPrefixed(names[i])) || (forall i :: 0 <= i < |names| ==> !IPrefixed(names[i]))
    ensures InterfaceScore(names) == 1.0
  {
    AllIPrefixedCount(names);
    NoIPrefixedCount(names);
    if |names| > 0 {
      var n := |names| as real;
      if CountIPrefixed(names) == |names| {
        DivideExact(n, n, 1.0);
      } else {
        DivideExact(0.0, n, 0.0);
      }
    }
  }

  /** An even split between the two conventions scores 0.5. */
  lemma EvenSplitScoresHalf(names: seq<string>)
    requires |names| > 0 && 2 * CountIPrefixed(names) == |names|
    ensures InterfaceScore(names) == 0.5
  {
    DivideExact(CountIPrefixed(names) as real, |names| as real, 0.5);
  }

  lemma {:induction false} AllCapitalizedCount(names: seq<string>)
    ensures CountCapitalized(names) == |names| <==> forall i :: 0 <= i < |names| ==> Capitalized(names[i])
    decreases |names|
  {
    if |names| > 0 {
      var front := names[..|names| - 1];
      AllCapitalizedCount(front);
      assert forall i :: 0 <= i < |front| ==> front[i] == names[i];
    }
  }

  /** The type score is 1.0 exactly when every type name is PascalCase. */
  lemma TypeScoreOne(names: seq<string>)
    ensures TypeScore(names) == 1.0 <==> forall i :: 0 <= i < |names| ==> Capitalized(names[i])
  {
    AllCapitalizedCount(names);
    if |names| > 0 {
      var n := |names| as real;
      var c := CountCapitalized(names) as real;
      if TypeScore(names) == 1.0 {
        assert c == 1.0 * n;
      }
    }
  }
}
