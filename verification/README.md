# Code Empathizer analysis engine, modelled in Dafny

Code Empathizer reads a GitHub repository and scores how "empathetic" its code is
towards readers. It scores eight categories: names, documentation, modularity,
complexity, error handling, tests, security and style consistency. This project
models the engine behind the score and proves properties of it. The network
client, the renderers and the regular-expression heuristics stay outside the model.

The modules follow the program's files:

- `Common`, `Strings`, `Dict` are support modules.
  - `Common` holds `Option`/`Result` and sums and means over sequences.
  - `Strings` holds the Python `str` operations the engine relies on: `strip`,
    `split`, `endswith`, `count`, `lower` and `find`.
  - `Dict` models a Python `dict` as an insertion-ordered association list, so
    iteration order and "first maximum wins" tie-breaking stay exact. It also
    provides group-by and arg-max.
- `Duplication` is the duplicate-code detector (`src/duplication_analyzer.py`).
  - Each line is normalised.
  - A window of `min_block_size` lines slides over each file.
  - Each block is keyed by the hash of its normalised text. The hash is a
    function parameter.
  - Blocks are grouped by key. The model counts duplicated lines, occurrences
    and affected files, and picks the most duplicated file.
  - The percentage is mapped to one of four bands.
  - The never-failing wrapper `analyze_repository_files` is included.
- `LanguageBase` is the per-language analyzer template
  (`src/language_analyzers/base.py`).
  - It covers the eight-category metrics map and the extension filter, and the
    file and line counters of `analyze_files`.
  - It covers the per-leaf averaging with its renames.
  - It covers the fixed-weight empathy score and `get_summary`.
- `TypeScript` is the TypeScript layer
  (`src/language_analyzers/typescript_analyzer.py`). It wraps an abstract base
  (JavaScript) result:
  - it adds a `typescript` entry;
  - it applies capped bonuses to `documentacion.cobertura` and
    `seguridad.validacion`;
  - it computes the type-coverage ratio, the extended function list and the
    style-consistency mean.

  Counts produced by regular expressions are abstract inputs.
- `Factory` is the analyzer registry (`src/language_analyzers/factory.py`).
  - It covers case-insensitive lookup by language and lookup by extension, with
    `os.path.splitext` semantics.
  - It covers registration, primary-language detection and grouping by language.
  - It covers the file-count-weighted overall score.
- `GithubUtils` holds the pure parts of the retrieval client (`src/github_utils.py`):
  - the size-to-file-cap banding with its configuration defaults;
  - the `usuario/repo` extraction;
  - the `parts[-2]/parts[-1]` slug of `get_repo_info`;
  - both file-collection strategies over an abstract directory tree;
  - the merge of default metrics with the primary language's metrics.
- `Cache` is the TTL result cache (`src/cache_manager.py`), modelled as a state
  machine.
  - The cache directory is a map from key to entry, and `metadata.json` is a
    second map.
  - Time is an integer clock.
  - The `CachedAnalyzer.analyze_repo` decision rule is built on top.

Environmental inputs are parameters:

- the MD5 digest;
- the per-language `analyze_file` results;
- the analyzer's summary of a file group;
- the wall clock;
- the repository tree.

Where a Python operation can raise on reachable input, the model returns `Result`
or `Option`. This applies to the `KeyError` on an unanalysed primary language,
the `IndexError` of the slug split and the `ValueError` of `extraer_usuario_repo`.

The repository pattern `github\.com/([^/]+/[^/]+)/?$` lets only nothing, '/' or
'/' plus a final newline follow the name. A bare final newline is not stripped:
`[^/]+` takes it and `$` matches after it, so `https://github.com/a/b\n` yields
`a/b\n`. The model keeps this behaviour (`GithubUtils.NewlineStaysInName`).

## Model

| member | source | states |
|---|---|---|
| `Duplication.NormalizeLineSpacing` | src/duplication_analyzer.py:118-122 | With `ignore_whitespace`, a normalised line is empty or has no leading or trailing whitespace, no two adjacent whitespace characters, and only plain spaces |
| `Duplication.NormalizeLineNoHash` | src/duplication_analyzer.py:118 | For a single line, no `#` survives normalisation, because a `#` comment runs to the end of the line |
| `Duplication.StripCommentsCutsAtMarker` | src/duplication_analyzer.py:118 | On a line with no newline or `<`, comment removal keeps exactly the prefix before the first `//` or `#` |
| `Duplication.StripCommentsRemovesHash` | src/duplication_analyzer.py:118 | Comment removal leaves no `#` on a single line |
| `Duplication.CollapseShape` | src/duplication_analyzer.py:120-122 | Collapsing whitespace leaves no two adjacent whitespace characters, and every whitespace character left is a plain space |
| `Duplication.CollapseIntroducesNothing` | src/duplication_analyzer.py:120-122 | Collapsing whitespace introduces no non-space character that was absent from the input |
| `Duplication.CollapseWhitespace` | src/duplication_analyzer.py:120-122 | The collapsed line is empty iff the input is, and it starts and ends with whitespace iff the input does |
| `Duplication.BlankNormalizes` | src/duplication_analyzer.py:118-124 | A whitespace-only line normalises to a blank line, so it never lets a block through |
| `Duplication.NormalizeAllAt` | src/duplication_analyzer.py:140-154 | The window's normalised lines are, position by position, `normalize_line` of the original lines |
| `Duplication.Kept` | src/duplication_analyzer.py:144-154 | Filtering blank normalised lines keeps all k lines iff every line of the window is non-blank |
| `Duplication.KeptOriginal` | src/duplication_analyzer.py:149-161 | When every normalised line is kept, the block's text is the original window's lines |
| `Duplication.BlockAtFull` | src/duplication_analyzer.py:140-166 | A window yields a block iff all k of its lines normalise to non-blank, and that block carries the window's text, file and 1-based line range |
| `Duplication.BlocksFromStarts` | src/duplication_analyzer.py:140-166 | Among the window starts from i onwards, a start produces a block iff its window is full of non-blank lines |
| `Duplication.BlocksFromContent` | src/duplication_analyzer.py:140-166 | Every emitted block is the block of its own window |
| `Duplication.BlocksFromOrdered` | src/duplication_analyzer.py:140-166 | The loop over window starts emits blocks in strictly increasing start-line order |
| `Duplication.ExtractBlocksWindows` | src/duplication_analyzer.py:137-166 | Over the n lines of the '\n' split: at most max(0, n−k+1) blocks, none when n < k, every block has size k, `end_line − start_line + 1 = k` and `1 ≤ start_line ≤ n−k+1`, a window start is emitted iff its window is full, and blocks come out in strictly increasing start order |
| `Duplication.BlankContentHasNoBlocks` | src/duplication_analyzer.py:185-186 | Whitespace-only content yields no blocks (for a positive block size) |
| `Duplication.AllBlocks` | src/duplication_analyzer.py:184-189 | Every block found over the input files has size k, a consistent line range and a path that is a key of the input |
| `Duplication.Keyed` | src/duplication_analyzer.py:192-193 | Each block is keyed by the digest of its content, in order |
| `Duplication.GroupMember` | src/duplication_analyzer.py:192-193 | Every block in a hash group is one of the extracted blocks and has that group's hash |
| `Duplication.Preview` | src/duplication_analyzer.py:206 | The preview is the content itself up to 200 characters, otherwise its first 200 characters followed by three more |
| `Duplication.Duplicates` | src/duplication_analyzer.py:200-207 | Every duplicate entry is a hash group with at least two blocks, whose `occurrences` is its block count and whose `size` is its first block's size |
| `Duplication.DuplicatesComplete` | src/duplication_analyzer.py:200-207 | Every hash group with more than one block is reported as a duplicate |
| `Duplication.DuplicateMember` | src/duplication_analyzer.py:200-207 | A duplicate's blocks are extracted blocks with the duplicate's hash and size k, and its occurrence count is the number of extracted blocks with that hash |
| `Duplication.ExtraLinesSum` | src/duplication_analyzer.py:209-210 | Σ size × (occurrences − 1) plus k per group equals k × Σ occurrences |
| `Duplication.OccurrenceAtLeastTwo` | src/duplication_analyzer.py:201-203 | When every group has at least two occurrences, total occurrences are at least twice the group count |
| `Duplication.DuplicatesWithinGroups` | src/duplication_analyzer.py:200-203 | Occurrences counted over duplicates never exceed the blocks grouped |
| `Duplication.FindDuplicatesCounts` | src/duplication_analyzer.py:200-236 | `total_ocurrencias ≥ 2 × bloques_encontrados`, total occurrences never exceed the extracted blocks, and `lineas_duplicadas + k × bloques = k × total_ocurrencias` |
| `Duplication.PathsMember` | src/duplication_analyzer.py:213-214 | A file is among a block list's paths iff some block in the list belongs to it |
| `Duplication.AffectedAt` | src/duplication_analyzer.py:213-214 | The file of every block of every duplicate is affected |
| `Duplication.AffectedWitness` | src/duplication_analyzer.py:213-214 | Every affected file owns a block of some duplicate |
| `Duplication.AffectedFilesSound` | src/duplication_analyzer.py:200-214 | An affected file owns an extracted block whose hash occurs at least twice |
| `Duplication.AffectedFilesComplete` | src/duplication_analyzer.py:200-214 | Any extracted block whose hash occurs at least twice makes its file affected |
| `Duplication.AffectedFilesExact` | src/duplication_analyzer.py:200-237 | `archivos_afectados` is exactly the set of files owning a block whose hash occurs at least twice |
| `Duplication.TotalLines` | src/duplication_analyzer.py:217 | `total_lines` is the number of files plus the number of '\n' over all input files, blank files included |
| `Duplication.FindDuplicatesPercentage` | src/duplication_analyzer.py:217-218 | The percentage is non-negative, and for a non-empty input it is `lineas_duplicadas / total_lines × 100` |
| `Duplication.ContributionKeys` | src/duplication_analyzer.py:221-224 | The per-file statistics have an entry exactly for the affected files |
| `Duplication.StatsEmpty` | src/duplication_analyzer.py:221-228 | The per-file statistics are empty iff there are no duplicates |
| `Duplication.StatsMax` | src/duplication_analyzer.py:228-229 | The chosen file is affected and no affected file has more duplicated lines |
| `Duplication.StatsBelow` | src/duplication_analyzer.py:228-229 | No affected file has a larger duplicated-line total than the file `max` picks |
| `Duplication.MostDuplicatedFileSpec` | src/duplication_analyzer.py:226-242 | `mayor_duplicacion` is None iff there are no duplicates; otherwise it names an affected file with the most duplicated lines |
| `Duplication.FindDuplicatesMost` | src/duplication_analyzer.py:226-242 | `mayor_duplicacion` is None iff `bloques_encontrados` is 0; otherwise it names an input file in `archivos_afectados` with maximal duplicated lines |
| `Duplication.Band` | src/duplication_analyzer.py:259-270 | Excelente below 5, Bueno from 5 up to 15, Moderado from 15 up to 25, Alto from 25, each as an if-and-only-if |
| `Duplication.BandMonotone` | src/duplication_analyzer.py:259-270 | A higher percentage never gives a better band |
| `Duplication.FindDuplicates` | src/duplication_analyzer.py:170-245 | The success record counts every input file, carries no error and an assessment summary |
| `Duplication.AnalyzeRepositoryFiles` | src/duplication_analyzer.py:284-299 | The wrapper never fails: a fault yields the zeroed record (no affected file, no most-duplicated file, empty `duplicates_details`) with `total_archivos = len(files)`, the error text and the fixed error summary, and the error field is present iff there was a fault |
| `LanguageBase.NewAnalyzer` | src/language_analyzers/base.py:114-126 | A fresh analyzer has exactly the eight category keys, each mapped to an empty map, and zero counters |
| `LanguageBase.EmptyCategories` | src/language_analyzers/base.py:114-126 | The built map has exactly the given categories, in order, each mapped to an empty map |
| `LanguageBase.CategoriesDistinct` | src/language_analyzers/base.py:114-126 | The eight category names are pairwise distinct, so the initial map has no repeated key |
| `LanguageBase.ShouldAnalyzeFileSpec` | src/language_analyzers/base.py:178-180 | A path is analysed iff it ends with one of the extensions (case-sensitive) |
| `LanguageBase.AnalyzedSource` | src/language_analyzers/base.py:163-171 | Each counted file is a matching input file whose `analyze_file` succeeded with those metrics |
| `LanguageBase.AnalyzedSkipsUnmatched` | src/language_analyzers/base.py:163-164 | When no file matches, nothing is counted |
| `LanguageBase.PrefixSource` | src/language_analyzers/base.py:163-171 | Each file counted among the first k inputs is one of them, matches an extension, and its `analyze_file` returned exactly the recorded metrics |
| `LanguageBase.PrefixSkipsUnmatched` | src/language_analyzers/base.py:163-164 | When no path matches, no prefix of the loop counts anything |
| `LanguageBase.CountFiles` | src/language_analyzers/base.py:160-171 | After the loop, `file_metrics` lists the metrics of the counted files in input order, `total_files` grew by their number and `total_lines` by their newline counts |
| `LanguageBase.CountStep` | src/language_analyzers/base.py:163-171 | One turn appends a file's metrics and adds one file and its newlines exactly when the path matches and analysis succeeded |
| `LanguageBase.CountedSnoc` | src/language_analyzers/base.py:166-171 | Counting one more file adds its metrics at the end and its newlines to the line total |
| `LanguageBase.AnalyzeFiles` | src/language_analyzers/base.py:148-176 | With "counted" the matching files whose `analyze_file` succeeded, in input order: `total_files` grows by their number, `total_lines` by their '\n' counts, metrics are untouched when nothing was counted and otherwise are `aggregate_metrics` over the counted files' metrics, and the category keys never change |
| `LanguageBase.ScoresSpec` | src/language_analyzers/base.py:189-226 | One score per file that reports the category, summing to the leaf's total with 0 for a missing leaf |
| `LanguageBase.StepLeaf` | src/language_analyzers/base.py:189-226 | One aggregation step sets the renamed leaf to the mean over the reporting files and leaves every other leaf alone; with no reporting file it changes nothing |
| `LanguageBase.AggregateLeaf` | src/language_analyzers/base.py:189-226 | After aggregation, each renamed leaf (`cobertura`→`cobertura_docstrings` and so on) is the mean over files reporting its category, other leaves keep their value, and a category no file reports is unchanged |
| `LanguageBase.RenamesDistinct` | src/language_analyzers/base.py:189-226 | Each of the eight aggregation steps writes a different category |
| `LanguageBase.AggregateAllAt` | src/language_analyzers/base.py:189-226 | A category's final value is decided by its own step alone |
| `LanguageBase.AggregateSplit` | src/language_analyzers/base.py:189-226 | The aggregation is the steps applied in order, so it can be split at any step |
| `LanguageBase.AggregateAllOther` | src/language_analyzers/base.py:189-226 | Steps for other categories leave a category untouched |
| `LanguageBase.AggregateAllKeepsKeys` | src/language_analyzers/base.py:189-226 | Steps over existing categories keep the key set |
| `LanguageBase.AggregateKeepsKeys` | src/language_analyzers/base.py:182-226 | Aggregation writes only inside the existing eight categories, so the key set is unchanged |
| `LanguageBase.RenamesInCategories` | src/language_analyzers/base.py:189-226 | Every category the aggregation writes is one of the eight initial categories |
| `LanguageBase.AggregateWithin` | src/language_analyzers/base.py:189-226 | If every leaf of the analyzer and of every file lies in [0,1], so does every aggregated leaf |
| `LanguageBase.AggregateAllWithin` | src/language_analyzers/base.py:189-226 | The same [0,1] bound holds for any sequence of aggregation steps |
| `LanguageBase.SetLeafWithin` | src/language_analyzers/base.py:189-226 | Writing an in-range value keeps every leaf in range |
| `LanguageBase.ScoresWithin` | src/language_analyzers/base.py:189-226 | Scores collected from in-range files are in [0,1] |
| `LanguageBase.CategoryWithin` | src/language_analyzers/base.py:243-246 | Reading a category of an in-range map yields in-range leaves |
| `LanguageBase.WeightsSumToOne` | src/language_analyzers/base.py:231-240 | The weights cover exactly the eight categories and sum to 1.0 |
| `LanguageBase.SumStep` | src/language_analyzers/base.py:242-249 | Adding one category adds its weighted mean to the score, and its weight to the active weights exactly when it has leaves |
| `LanguageBase.LastTermWithin` | src/language_analyzers/base.py:242-249 | One category's weighted mean lies between 0 and its weight (0 when it has no leaves) |
| `LanguageBase.WeightedWithin` | src/language_analyzers/base.py:242-251 | With leaves in [0,1], the score lies between 0 and the sum of the weights of non-empty categories |
| `LanguageBase.ActiveWithinTotal` | src/language_analyzers/base.py:242-251 | The weights of non-empty categories never exceed all weights |
| `LanguageBase.EmptyCategoriesScoreZero` | src/language_analyzers/base.py:242-251 | When every category is empty the score is 0.0 |
| `LanguageBase.NewAnalyzerScoresZero` | src/language_analyzers/base.py:114-126 | A fresh analyzer scores 0.0 |
| `LanguageBase.EmpathyScoreWithin` | src/language_analyzers/base.py:228-251 | With every leaf in [0,1], the score lies in [0, active weights] ⊆ [0,1] |
| `LanguageBase.ScoreBounded` | src/language_analyzers/base.py:228-251 | If every leaf lies in [0,1], the empathy score lies in [0,1] |
| `LanguageBase.GetSummary` | src/language_analyzers/base.py:253-267 | The summary echoes the language, counters and metrics, its score is the empathy score of the metrics, and that score lies in [0,1] when every leaf does |
| `TypeScript.ShouldAnalyzeTypeScript` | src/language_analyzers/typescript_analyzer.py:102-103 | A path is analysed iff it ends with `.ts` or `.tsx` |
| `TypeScript.ExtractFunctions` | src/language_analyzers/typescript_analyzer.py:188-211 | The result is the base list unchanged, followed by the generic matches tagged `generic_function` and then the decorated matches tagged `decorated_method` |
| `TypeScript.Tagged` | src/language_analyzers/typescript_analyzer.py:195-209 | Each match becomes one function record with its name, kind and start, in order |
| `TypeScript.ListParamsCount` | src/language_analyzers/typescript_analyzer.py:146-150 | A blank parameter list counts 0 parameters, otherwise its comma count plus one |
| `TypeScript.CountPieces` | src/language_analyzers/typescript_analyzer.py:148-152 | Counting the pieces of one parameter list gives the piece count and the number with a `:` |
| `TypeScript.ParamsStep` | src/language_analyzers/typescript_analyzer.py:145-152 | Adding one parameter list adds its counts to both totals |
| `TypeScript.CountParams` | src/language_analyzers/typescript_analyzer.py:145-152 | The loop counts the typed and total parameters of all lists, and typed never exceeds total |
| `TypeScript.TypedWithinTotal` | src/language_analyzers/typescript_analyzer.py:145-152 | Typed parameters never exceed parameters |
| `TypeScript.TypeCoverage` | src/language_analyzers/typescript_analyzer.py:163-166 | The coverage is non-negative and 0.0 when there are no items |
| `TypeScript.CoverageRatio` | src/language_analyzers/typescript_analyzer.py:163-166 | With items present, coverage × total items = typed items |
| `TypeScript.CoverageAtMostOne` | src/language_analyzers/typescript_analyzer.py:163-166 | Coverage is at most 1 when typed variables and typed returns do not outnumber variables and functions |
| `TypeScript.Bump` | src/language_analyzers/typescript_analyzer.py:130 | `min(1.0, b + x)` never exceeds 1.0, never falls below b for b ≤ 1 and x ≥ 0, and is exactly b + x when that fits |
| `TypeScript.SecurityNeverDrops` | src/language_analyzers/typescript_analyzer.py:133-134 | For a base in [0,1], the security bonus stays in [base, 1.0] |
| `TypeScript.BoostSpec` | src/language_analyzers/typescript_analyzer.py:129-134 | A bonus fails iff the category is missing (the `KeyError` of the subscript); otherwise it sets only that leaf to the capped sum and changes nothing else |
| `TypeScript.DocumentedSpec` | src/language_analyzers/typescript_analyzer.py:128-130 | The documentation step fails iff the coverage exceeds 0.7 and `documentacion` is missing; it touches no other category |
| `TypeScript.AnalyzeFileFails` | src/language_analyzers/typescript_analyzer.py:108-136 | The analysis fails iff `seguridad` is missing from the base result, or the coverage exceeds 0.7 and `documentacion` is missing |
| `TypeScript.BonusesKeep` | src/language_analyzers/typescript_analyzer.py:127-134 | The bonuses change only `documentacion` and `seguridad`, and keep the key set |
| `TypeScript.BonusesSecurity` | src/language_analyzers/typescript_analyzer.py:133-134 | `seguridad.validacion` becomes `min(1.0, base + 0.2 × coverage)`, and every other security leaf is kept |
| `TypeScript.AnalyzeFileKeys` | src/language_analyzers/typescript_analyzer.py:120-125 | The result has the base keys, with `typescript` appended when it was absent |
| `TypeScript.AnalyzeFileKeeps` | src/language_analyzers/typescript_analyzer.py:111-134 | The `typescript` entry holds coverage, interfaces, type aliases and enums, and every category except `typescript`, `documentacion` and `seguridad` is the base's |
| `TypeScript.AnalyzeFileDocumentation` | src/language_analyzers/typescript_analyzer.py:128-130 | `documentacion.cobertura` becomes `min(1.0, base + 0.2)` when the coverage exceeds 0.7, and the category is untouched otherwise |
| `TypeScript.BonusesDocumentation` | src/language_analyzers/typescript_analyzer.py:128-130 | Above 0.7 coverage the documentation coverage leaf becomes `min(1.0, old + 0.2)` and every other documentation leaf is kept |
| `TypeScript.AnalyzeFileSecurity` | src/language_analyzers/typescript_analyzer.py:133-134 | `seguridad.validacion` becomes `min(1.0, base + 0.2 × coverage)` and the other security leaves are kept |
| `TypeScript.InterfaceScore` | src/language_analyzers/typescript_analyzer.py:219-226 | The interface score is 1.0 or 0.5, and 1.0 with no interfaces |
| `TypeScript.AllIPrefixedCount` | src/language_analyzers/typescript_analyzer.py:221 | The I-prefixed count equals the name count iff every name starts with `I` |
| `TypeScript.NoIPrefixedCount` | src/language_analyzers/typescript_analyzer.py:221 | The I-prefixed count is zero iff no name starts with `I` |
| `TypeScript.ConsistentInterfacesScoreOne` | src/language_analyzers/typescript_analyzer.py:219-226 | Names that all use, or all avoid, the `I` prefix score 1.0 |
| `TypeScript.EvenSplitScoresHalf` | src/language_analyzers/typescript_analyzer.py:222-224 | A half-and-half split scores 0.5 |
| `TypeScript.AllCapitalizedCount` | src/language_analyzers/typescript_analyzer.py:231 | The capitalised count equals the name count iff every name starts with an upper-case letter |
| `TypeScript.TypeScore` | src/language_analyzers/typescript_analyzer.py:229-234 | The type score lies in [0,1] |
| `TypeScript.TypeScoreOne` | src/language_analyzers/typescript_analyzer.py:229-234 | The type score is 1.0 iff every type name starts with an upper-case letter |
| `TypeScript.StyleConsistency` | src/language_analyzers/typescript_analyzer.py:213-236 | The result is the mean of the base, interface and type scores, and lies in [1/6, 1] for a base in [0,1] |
| `Factory.DefaultTables` | src/language_analyzers/factory.py:111-161 | The default registry has 14 analyzers and 31 extensions, every extension routes to a registered language, and every registry key is non-empty and lower-case |
| `Factory.DefaultKeysLower` | src/language_analyzers/factory.py:111-161 | Every registered language name is non-empty and already lower-case |
| `Factory.DefaultRouted` | src/language_analyzers/factory.py:111-161 | Every registered extension routes to a registered language |
| `Factory.Register` | src/language_analyzers/factory.py:163-166 | Registration binds `language.lower()` and no other key, and leaves the extension map unchanged |
| `Factory.RegisterThenGet` | src/language_analyzers/factory.py:163-174 | After registering, the language finds the new class, and every other lower-cased name finds what it found before |
| `Factory.RegisterKeepsRouted` | src/language_analyzers/factory.py:163-166 | Registration preserves "every mapped extension routes to a registered language" |
| `Factory.RegisterDoesNotRoute` | src/language_analyzers/factory.py:163-184 | After registering, an unmapped extension still routes to no analyzer |
| `Factory.GetAnalyzer` | src/language_analyzers/factory.py:168-174 | A lookup succeeds iff the lower-cased name is a registry key |
| `Factory.GetAnalyzerIgnoresCase` | src/language_analyzers/factory.py:168-174 | A lookup is the same for a name and its lower-cased form |
| `Factory.ExtShape` | src/language_analyzers/factory.py:179 | The extension is empty or a final-component suffix that starts with its only dot |
| `Factory.SuffixShape` | src/language_analyzers/factory.py:179 | A suffix from the last dot after the last separator is a well-formed extension |
| `Factory.ExtOf` | src/language_analyzers/factory.py:179 | `dir/stem.suffix` has extension `.suffix` when the stem does not start with a dot |
| `Factory.HiddenFileHasNoExt` | src/language_analyzers/factory.py:179 | A dot-file such as `dir/.name` has no extension |
| `Factory.LanguageOf` | src/language_analyzers/factory.py:179-182 | A file's language is the non-empty value mapped to its lower-cased extension |
| `Factory.GetAnalyzerForFile` | src/language_analyzers/factory.py:176-184 | A file gets an analyzer only through its extension's language, and none when the extension is unmapped |
| `Factory.ListedExtensionRouted` | src/language_analyzers/factory.py:176-184 | In a registry whose extensions all route to lower-case registered keys, a mapped extension always finds an analyzer |
| `Factory.DefaultRoutesListedExtensions` | src/language_analyzers/factory.py:111-184 | With the default tables, every listed extension finds an analyzer |
| `Factory.GetSupportedExtensions` | src/language_analyzers/factory.py:186-189 | The supported extensions are exactly the extension-map keys |
| `Factory.GetSupportedLanguages` | src/language_analyzers/factory.py:191-194 | The supported languages are exactly the registry keys |
| `Factory.TagMember` | src/language_analyzers/factory.py:201-205 | A file is tagged with a language iff it is an input file routed to that language |
| `Factory.TagEmpty` | src/language_analyzers/factory.py:201-205 | Nothing is tagged iff no file is routed |
| `Factory.GroupExact` | src/language_analyzers/factory.py:201-205 | A language's group holds exactly the input files routed to it |
| `Factory.Largest` | src/language_analyzers/factory.py:207-210 | The largest-group pick is None iff there are no groups, and otherwise names a group |
| `Factory.LargestIsMax` | src/language_analyzers/factory.py:207-210 | The pick has maximal size and every earlier group is strictly smaller (the first maximum wins) |
| `Factory.DetectPrimaryNone` | src/language_analyzers/factory.py:197-210 | No primary language iff no path has a mapped extension |
| `Factory.DetectPrimaryMax` | src/language_analyzers/factory.py:197-210 | The primary language has a positive, maximal file count, and every language met earlier has fewer files |
| `Factory.LanguageFilesExact` | src/language_analyzers/factory.py:222-229 | A language's group holds exactly the input files whose analyzer reports that language name |
| `Factory.LanguageFilesPartition` | src/language_analyzers/factory.py:222-229 | Every group is non-empty, and the group sizes add up to the number of recognised files |
| `Factory.LanguageFilesEmpty` | src/language_analyzers/factory.py:222-229 | There are no groups iff no file has an analyzer |
| `Factory.AnalysesKeys` | src/language_analyzers/factory.py:232-258 | A language is analysed iff it has a group and its name is a registry key after lower-casing |
| `Factory.AnalysesEntries` | src/language_analyzers/factory.py:232-258 | Each analysed entry is its group's summary and metrics, with `file_count` equal to the group's size |
| `Factory.AnalysesDistinct` | src/language_analyzers/factory.py:232-258 | Analysed languages are distinct |
| `Factory.AnalysesCounted` | src/language_analyzers/factory.py:257 | Every analysed language has `file_count ≥ 1` |
| `Factory.PrimaryLanguageSpec` | src/language_analyzers/factory.py:260-263 | `primary_language` is None iff no file was recognised, and otherwise names a largest group, the first among equals |
| `Factory.PrimaryListedIffRegistered` | src/language_analyzers/factory.py:226-263 | The primary language appears in `languages` iff its lower-cased name is a registry key |
| `Factory.AnalyzeNeverFails` | src/language_analyzers/factory.py:212-268 | The multi-language analysis cannot hit the zero-division path, because every group has a file |
| `Factory.AggregateCases` | src/language_analyzers/factory.py:271-293 | No languages gives `{}`. Division by zero happens iff every `file_count` is 0. Otherwise `total_files` = Σ `file_count`, `total_lines` = Σ the summaries' `total_lines`, and `languages_analyzed` lists the languages in order |
| `Factory.SumNatZero` | src/language_analyzers/factory.py:276 | A sum of counts is zero iff every count is zero |
| `Factory.WeightedStep` | src/language_analyzers/factory.py:281-287 | Adding one language adds its score times its file share |
| `Factory.FileCountsStep` | src/language_analyzers/factory.py:276 | Adding one language adds its file count to the total |
| `Factory.WeightedBounds` | src/language_analyzers/factory.py:281-287 | The weighted sum lies between the lowest and highest score, each times the counted share of files |
| `Factory.WeightedBoundsStep` | src/language_analyzers/factory.py:281-287 | Adding a language whose score lies in [lo, hi] keeps the weighted sum between lo and hi times the counted file share |
| `Factory.OverallScoreWithin` | src/language_analyzers/factory.py:271-293 | The overall score lies between any lower and upper bound of the per-language scores |
| `GithubUtils.DefaultLimits` | src/github_utils.py:122-144 | With the fallback configuration, or none, the cap is 20 above 100000 KB, 40 above 50000, 80 above 10000 and 150 otherwise |
| `GithubUtils.DefaultTiersCap` | src/github_utils.py:133-144 | Any configuration resolving to the default tiers gives the default caps |
| `GithubUtils.FallbackTiers` | src/github_utils.py:122-131 | The fallback configuration resolves to the default thresholds and caps |
| `GithubUtils.TierSettings` | src/github_utils.py:133-144 | In a tier table without repeated names, a tier's own `max_files` and `threshold_kb` are read back whatever the default |
| `GithubUtils.EmptyTiers` | src/github_utils.py:133-144 | A missing configuration falls back to the same thresholds and caps |
| `GithubUtils.Fields` | src/github_utils.py:135-144 | A tier's `max_files` and `threshold_kb` entries are read back as written |
| `GithubUtils.CapMonotone` | src/github_utils.py:137-144 | When thresholds increase and caps decrease tier by tier, a larger repository never gets a larger cap |
| `GithubUtils.FallbackGraded` | src/github_utils.py:122-131 | The default tiers are graded |
| `GithubUtils.OwnerRepoOf` | src/github_utils.py:398 | `owner/name` followed by nothing, '/' or '/\n' matches and captures `owner/name` |
| `GithubUtils.NewlineStaysInName` | src/github_utils.py:398 | A bare final newline after the name is captured with it: `owner/name\n` yields `owner/name\n` |
| `GithubUtils.OwnerRepoParts` | src/github_utils.py:398 | Any match splits into `owner/name` plus an allowed trailer |
| `GithubUtils.NameAfterParts` | src/github_utils.py:398 | A repository-name match splits into the name plus an allowed trailer |
| `GithubUtils.NameAfterOf` | src/github_utils.py:398 | A slash-free name followed by an allowed trailer matches |
| `GithubUtils.SearchFound` | src/github_utils.py:398 | A search hit lies at or after the start position, at a `github.com/` occurrence, and captures what the pattern captures there |
| `GithubUtils.SearchSkips` | src/github_utils.py:398 | Searching from p equals searching from q when no match starts in between |
| `GithubUtils.SearchHere` | src/github_utils.py:398 | Where `github.com/` is followed by a capturable `owner/name`, the search from there returns that capture |
| `GithubUtils.SearchNext` | src/github_utils.py:398 | Where no capture starts, the search moves on one character |
| `GithubUtils.SearchShape` | src/github_utils.py:398-400 | A hit's capture is `owner/name`, and the input ends with `github.com/owner/name` plus the trailer |
| `GithubUtils.CaptureAt` | src/github_utils.py:398 | A match at a position yields `owner/name` and ends the input |
| `GithubUtils.ExtraerShape` | src/github_utils.py:393-402 | A successful extraction either passes a slash-containing non-GitHub input through unchanged, or returns `owner/name` where the input ends with `github.com/owner/name` plus nothing, '/' or '/\n' |
| `GithubUtils.ExtraerFromUrl` | src/github_utils.py:393-402 | Any prefix followed by `github.com/owner/name` and an optional '/' yields `owner/name` |
| `GithubUtils.HostNotPassed` | src/github_utils.py:395-396 | An input containing `github.com/` is never passed through unchanged |
| `GithubUtils.SearchToLast` | src/github_utils.py:398 | No earlier position of such an input yields a match, so the search reaches the last `github.com/` |
| `GithubUtils.SearchAtLast` | src/github_utils.py:398 | At the final `github.com/`, the search captures `owner/name` |
| `GithubUtils.NoEarlierCapture` | src/github_utils.py:398 | No earlier `github.com/` occurrence can match when the URL ends with `github.com/owner/name` |
| `GithubUtils.NoCaptureBefore` | src/github_utils.py:398 | Text followed by a later `github.com/owner/name` suffix cannot itself match as `owner/repo` |
| `GithubUtils.CaptureSlashes` | src/github_utils.py:398 | A match holds one '/', or two when the name is followed by '/' or '/\n' |
| `GithubUtils.ExtraerRejects` | src/github_utils.py:400-402 | An input that is not passed through and contains no `github.com/` raises `ValueError` |
| `GithubUtils.ExtraerNoSlash` | src/github_utils.py:395-402 | An input with no '/' raises `ValueError` |
| `GithubUtils.RepoFullNameFails` | src/github_utils.py:408-409 | The slug split raises `IndexError` iff the stripped URL has no '/' |
| `GithubUtils.RepoFullNameOf` | src/github_utils.py:408-409 | A URL stripping to `…/owner/name` yields `owner/name` |
| `GithubUtils.SplitEndsWith` | src/github_utils.py:408 | Splitting `…/owner/name` on '/' ends with the two parts `owner` and `name` |
| `GithubUtils.CollectCount` | src/github_utils.py:191-263 | Collection counts min(cap, previous count + acceptable files met) |
| `GithubUtils.CollectStored` | src/github_utils.py:191-263 | No more paths are stored than counted, and each stored path is earlier state or an acceptable file met, with its content |
| `GithubUtils.CollectEmpty` | src/github_utils.py:191-263 | Nothing stored implies nothing counted |
| `GithubUtils.CollectComplete` | src/github_utils.py:191-263 | Below the cap, every acceptable file met is stored |
| `GithubUtils.KeepsKeys` | src/github_utils.py:191-263 | A stored path is never dropped |
| `GithubUtils.CollectAppend` | src/github_utils.py:191-263 | Collecting a concatenation is collecting the first part, then the second |
| `GithubUtils.CollectCapped` | src/github_utils.py:191-263 | Once the cap is reached, collection changes nothing |
| `GithubUtils.WeightAppend` | src/github_utils.py:235-242 | The pending work of two queues adds up |
| `GithubUtils.QueueOrder` | src/github_utils.py:235-242 | The breadth-first order of the normal strategy yields only files |
| `GithubUtils.CollectNormal` | src/github_utils.py:233-266 | The pop-front/extend loop collects exactly what collection over the breadth-first file order collects |
| `GithubUtils.FilesOf` | src/github_utils.py:186 | The root files are exactly the file entries of the listing |
| `GithubUtils.DirsOf` | src/github_utils.py:187 | The directories kept are directory entries of the listing |
| `GithubUtils.Take` | src/github_utils.py:187-210 | Python's `[:n]` keeps the first min(n, len) entries |
| `GithubUtils.FilesOfSize` | src/github_utils.py:186 | There are no more root files than entries |
| `GithubUtils.SubdirFilesSize` | src/github_utils.py:206-210 | Each subdirectory contributes at most 20 files |
| `GithubUtils.FastOrderSize` | src/github_utils.py:182-232 | The fast strategy meets every root file, plus at most 100 more from the first five directories |
| `GithubUtils.CollectFilesBound` | src/github_utils.py:182-266 | Either strategy counts between 0 and the cap (0 for a non-positive cap), stores no more than it counts, and stores only paths with a supported extension |
| `GithubUtils.DefaultCategories` | src/github_utils.py:271-306 | The default metrics have exactly the template's eight categories |
| `GithubUtils.DefaultLeaves` | src/github_utils.py:271-306 | Every default leaf is 0.0 except `seguridad.uso_funciones_peligrosas`, which is 1.0 |
| `GithubUtils.Merge` | src/github_utils.py:326-328 | The merge keeps the defaults' category keys in order |
| `GithubUtils.MergeAt` | src/github_utils.py:326-328 | The merge keeps each default's position, taking the primary's value when present |
| `GithubUtils.MergeGet` | src/github_utils.py:326-328 | A category is the primary's when it reports it and the default otherwise, and categories absent from the defaults are never added |
| `GithubUtils.MergedOrDefaults` | src/github_utils.py:318-334 | The report's categories are those of the defaults, and with a primary language each is the primary's entry when it has one and the default otherwise |
| `GithubUtils.ProjectReportFails` | src/github_utils.py:318-368 | Building the report fails (`KeyError`, caught into None) iff the primary language is truthy and absent from `languages` |
| `GithubUtils.ProjectReportMetrics` | src/github_utils.py:318-334 | A built report has the eight categories: the defaults with no primary language, otherwise the merge with the primary language's metrics |
| `GithubUtils.PrimaryMetricsSource` | src/github_utils.py:320-322 | The primary metrics come from the truthy primary language's entry in `languages` |
| `GithubUtils.ReportFails` | src/github_utils.py:313-368 | With collected files, `analizar_repo` returns None iff the primary language's lower-cased name is not registered, and it never fails without files |
| `GithubUtils.ReportNote` | src/github_utils.py:309-334 | The limit note is present iff the count reached the cap, and carries the cap. Languages are reported iff files were stored. Without files, the metrics are the defaults with the collected count |
| `GithubUtils.AnalizarRepoNote` | src/github_utils.py:133-334 | For a positive cap, the limit note appears iff the strategy meets at least cap acceptable files, and languages are reported iff it meets any |
| `Cache.KeyStringInjective` | src/cache_manager.py:118-121 | For repository names without ':', two key strings are equal iff the names are equal and the truthy commits are equal, so None and "" share a key |
| `Cache.KeyColon` | src/cache_manager.py:118-121 | For a name without ':', the key string has a ':' iff the commit is truthy |
| `Cache.New` | src/cache_manager.py:88-97 | A new cache is consistent and has the given TTL |
| `Cache.Set` | src/cache_manager.py:168-188 | Storing keeps data and metadata consistent |
| `Cache.Get` | src/cache_manager.py:136-158 | Reading (with its expiry deletion) keeps data and metadata consistent |
| `Cache.Delete` | src/cache_manager.py:197-205 | Deleting keeps data and metadata consistent |
| `Cache.GetMissing` | src/cache_manager.py:136-140 | A key with no entry reads None and changes nothing |
| `Cache.SetThenGet` | src/cache_manager.py:147-180 | A read after a write returns the data when at most TTL has passed (the test is strict), and otherwise returns None and removes the entry and its metadata |
| `Cache.SetThenGetAlias` | src/cache_manager.py:118-154 | A write under one commit is read back under any commit with the same truthiness value |
| `Cache.DeleteOnly` | src/cache_manager.py:197-205 | Deleting removes that key's entry and metadata and leaves every other key unchanged |
| `Cache.ClearAll` | src/cache_manager.py:207-217 | Clearing yields the empty cache with the same TTL |
| `Cache.ClearAllEmpties` | src/cache_manager.py:207-217 | After clearing, every read misses |
| `Cache.ClearExpired` | src/cache_manager.py:219-247 | The sweep removes exactly the keys whose metadata is older than TTL, from both maps |
| `Cache.ClearExpiredExact` | src/cache_manager.py:227-242 | A key survives iff it is not expired by its metadata timestamp; everything else is kept |
| `Cache.ClearExpiredInvisible` | src/cache_manager.py:219-247 | On a consistent cache, the sweep leaves no expired entry and changes no read at that time |
| `Cache.AnalyzeRepo` | src/cache_manager.py:336-349 | The cached-analysis rule keeps the cache consistent |
| `Cache.AnalyzeRepoHit` | src/cache_manager.py:337-340 | Unforced, a truthy cached value is returned without consulting the analyzer |
| `Cache.AnalyzeRepoMiss` | src/cache_manager.py:342-349 | Forced, or on a miss or falsy hit, the analyzer's result is returned, and it is cached iff truthy |
| `Cache.AnalyzeRepoMemo` | src/cache_manager.py:336-349 | A truthy fresh analysis is served from the cache by an unforced call within TTL |

## Left out

- I/O is not modelled:
  - network calls (PyGithub), rate-limit waiting and the 403 retry of `analizar_repo`;
  - printing and logging;
  - reading `config.yaml`, which is a parameter (`FileLimits`);
  - the cache's JSON files and directory.

  Disk and JSON failures in the cache are not modelled. The model has no
  corrupt file and no failed write, so `get`'s and the metadata helpers'
  `except` branches are absent.
- `datetime.now()` is an integer clock passed to each cache operation.
  `timedelta(hours=ttl)` is the integer `ttl` in the same unit.
- `hashlib.md5` is a function parameter. Distinct key strings are not assumed
  to hash differently.
- Regular expressions are left out; their results are abstract inputs.
  - This covers the comment regex of `normalize_line`, TypeScript's parameter,
    variable, return-type, interface, type-alias, enum, generic and decorator
    patterns, and the repository regex, which is written out as a search.
  - The comment rule is modelled as "cut at the first `//` or `#`, or remove a
    `<!-- … -->` on the line".
- `Strings.Lower` only lower-cases ASCII. Python's `str.lower` covers all of
  Unicode.
- Python floats are modelled as exact reals throughout. Floating-point rounding is not modelled. This affects:
  - the weights summing to 1.0 in `LanguageBase.WeightsSumToOne`;
  - the [0,1] bounds of `LanguageBase.ScoreBounded`;
  - the band thresholds of `Duplication.Band`;
  - the `> 0.7` test of `TypeScript.DocumentedSpec`;
  - `min(1.0, …)` in `TypeScript.Bump`;
  - the weighted overall score.
- `Cache.SetThenGet` assumes that the cached data survives the JSON round trip unchanged. The source stores the data with `json.dump` and reads it back with `json.load` (src/cache_manager.py:144-154 and :180). For data that is not JSON-shaped, tuples come back as lists and non-string dictionary keys come back as strings. The model's `Cache.Get` returns the stored value itself.
- `round(…, 2)` on the percentages is left out. The model's percentages are
  unrounded reals.
- `Duplication.FindDuplicates`: `porcentaje_global` can exceed 100, because
  overlapping windows within one file can match each other. No upper bound is
  stated.
- `mayor_duplicacion.porcentaje` is computed but not related to anything by a
  lemma.
- `Duplication`: `min_block_size` is a `nat`. Negative sizes and the
  constructor's default values are left out.
- The JavaScript analyzer, the other eleven language analyzers and their
  `analyze_file` are not part of this model.
  - TypeScript's base result is an input.
  - `analyze_file` results are a parameter that may fail, so it is an `Option`.
- `analyze_duplication`, `analyze_dependencies`, `analyze_patterns`,
  `analyze_performance` and `analyze_comments` of the base template are left out.
  The same goes for the `duplicacion`, `dependencias`, `patrones`, `rendimiento`
  and `comentarios` keys `analizar_repo` copies from them. They are stubs in the
  base class and have no effect on the score.
- `LanguageBase.ScoreBounded` and `LanguageBase.EmpathyScoreWithin` assume every
  leaf lies in [0,1]. The source does not enforce this, because analyzers may
  report counts.
- `TypeScript.Capitalized`: `name[0].isupper()` is modelled as an ASCII test
  (`'A'` to `'Z'`). Python's `isupper` also accepts non-ASCII upper-case
  letters such as `É`, so a type name starting with one counts as capitalised
  in the source and not in the model.
- `TypeScript.AllCapitalizedCount` counts with the ASCII-only test of `TypeScript.Capitalized`, not Unicode `isupper`.
- `TypeScript.TypeScore` scores with the ASCII-only test of `TypeScript.Capitalized`: for the types `["Élan"]` it gives 0.0 where the source gives 1.0.
- `TypeScript.TypeScoreOne` means ASCII upper case by "capitalised", as `TypeScript.Capitalized` does.
- `TypeScript.StyleConsistency` takes its type sub-score from `TypeScript.TypeScore`, so it inherits the ASCII-only reading of `isupper`.
- `Cache.Set`: the source reads the clock twice, once for the entry's
  timestamp (src/cache_manager.py:173) and once for the metadata's
  (src/cache_manager.py:292). The model stamps both with one `now`, which is
  why `Consistent` can require equal timestamps. With two readings the
  metadata time is at least the entry time.
- `Cache.ClearExpired`: the source reads the clock once per metadata key
  (src/cache_manager.py:230). The model judges every key against one `now`.
  `Cache.ClearExpiredInvisible` still holds with separate readings. A key
  the sweep removes has metadata older than TTL at that reading. Its entry is
  at least as old as its metadata, so `get` at the same moment would already
  treat it as expired.
- `TypeScript.CoverageAtMostOne` needs typed variables and typed returns not to
  outnumber variables and functions. The source's separate regexes do not
  guarantee this, so the coverage can exceed 1.
- `GithubUtils.AnalizarRepoNote` requires a positive cap. With a cap of 0 or
  less, the source counts nothing and still attaches the note.
- `get_repo_info`'s repository metadata fields are left out (only the slug is
  modelled). So are `get_code_files`, `get_repo_from_input`,
  `CacheManager.get_cache_info` and `_ensure_cache_dir`.
- Repository entries other than files and directories (symlinks, submodules)
  are left out.
  - A file whose decoding fails is a file whose content is `None`. It is
    skipped, as the source's `except` does.
  - A failing `get_contents` of a subdirectory in the fast strategy is left
    out; the tree is given.
  - The normal strategy's per-directory listing failure, which reaches the outer
    `except`, is left out.
- `register_analyzer` modifies class-level state. The model makes the registry
  a value that `Register` returns.
- `get_analyzer` returns a class name, not an analyzer instance. Instances only
  carry the counters that `LanguageBase.Analyzer` models.
- `CachedAnalyzer.analyze_repo` has two clock readings, `now` for `get` and
  `later` for `set`. Python truthiness of the analysis result is a predicate
  parameter.
