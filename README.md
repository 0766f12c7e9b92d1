# iamcompact-nomenclature, modelled in Dafny

This project models the core of `iamcompact_nomenclature`, the package that checks
IAMC-style scenario data against a set of nomenclature definitions. The model covers:

- **Variable names.** Hierarchical variable names such as `Final Energy|Industry`,
  with their aggregates and components (`VarUtils`).
- **Validation.** The names used in a data frame, the model-native regions and the
  units are checked against a data structure definition and a region processor
  (`Validation`).
- **Region mapping.** Region mapping that sets aside, instead of failing on, rows
  whose region is not valid for their model (`Mapping`).
- **Merging.** Several definition directories and region-mapping directories are
  read and merged in priority order (`MultiLoad`).
- **Cached defaults.** The cached default definition and default region processor
  (`DefaultDefinitions`).
- **HTML rendering.** A variable codelist rendered as an HTML document
  (`CodelistFormatter`).

The supporting modules are:

- `Results`: Python exceptions become a `Result` with one `Error` per exception class.
- `Dicts`: insertion-ordered Python `dict`s and the two directions of `dict.update` merging.
- `Frames`: the part of a pyam `IamDataFrame` the code looks at (rows, sorted
  dimension lists, `filter`, `unit_mapping`).
- `Definitions`: codes, codelists, configs, definitions and region processors.
- `Strings` and `Seqs`: split and join, code-point order, sorting, filtering.

Reading YAML directories and `RegionProcessor.apply` are not part of the model. The
loaders and `apply` are function parameters.

## Model

| member | source | states |
|---|---|---|
| VarUtils.ParentIsLongestAncestor | iamcompact_nomenclature/var_utils.py:60-61 | The name without its last level is an ancestor of the name, and no ancestor is longer. An ancestor followed by a separator-free rest is the parent. |
| VarUtils.JoinInitIsParent | iamcompact_nomenclature/var_utils.py:61 | `sep.join(varname.split(sep)[:-1])` is the text before the last separator, and a name with a separator splits into at least two parts. |
| VarUtils.AncestorIsLevel | iamcompact_nomenclature/var_utils.py:63-68 | The candidates the all-levels loop tries (joins of the first k parts, 1 <= k < number of parts) are exactly the ancestors of the name. This holds in both directions. |
| VarUtils.LevelsGrow | iamcompact_nomenclature/var_utils.py:65-66 | A deeper level is a longer name, so searching from the deepest level first finds the longest ancestor. |
| VarUtils.DeepestLevelIn | iamcompact_nomenclature/var_utils.py:65-68 | The loop stops at the deepest level held by the data. No deeper level is held, and 0 means none is. |
| VarUtils.ParentLevel | iamcompact_nomenclature/var_utils.py:69-70 | The direct candidate is the parent of the name and is one of its ancestors. |
| VarUtils.DeepestAncestor | iamcompact_nomenclature/var_utils.py:64-68 | The all-levels search returns an ancestor held by the data, and no ancestor held by the data is longer. It returns nothing only when the data holds no ancestor. |
| VarUtils.GetAggregateVar | iamcompact_nomenclature/var_utils.py:9-73 | `get_aggregate_var`: `None` without a separator. Without data, the parent. With only the first level checked, the parent exactly when the data holds it. With all levels checked, the deepest ancestor the data holds. Any result is an ancestor and is in the data. |
| VarUtils.GetComponentVars | iamcompact_nomenclature/var_utils.py:110-118 | `get_component_vars`: empty when `varname` is not in the data. Otherwise exactly the variables that start with `varname + sep` and are within `num_sublevels` more levels, in data order. |
| VarUtils.ComponentsAreDescendants | iamcompact_nomenclature/var_utils.py:114 | Each component has `varname` as an ancestor and differs from it. |
| VarUtils.ComponentIsChild | iamcompact_nomenclature/var_utils.py:112-118 | A first-level component has `varname` as its direct aggregate. |
| VarUtils.ChildIsComponent | iamcompact_nomenclature/var_utils.py:69-72 | A variable whose direct aggregate is `varname` is a first-level component of it. |
| VarUtils.ComponentAggregateRoundTrip | iamcompact_nomenclature/var_utils.py:9-130 | Going one level down and one level up undo each other. A variable is a first-level component of `varname` exactly when `varname` is in the data and is the variable's direct aggregate. |
| VarUtils.NotNone | iamcompact_nomenclature/var_utils.py:139-145 | `not_none`: the value itself, or `IsNoneError` exactly for `None`. |
| Validation.UnitAttribute | iamcompact_nomenclature/validation.py:268 | `code.unit`, or `AttributeError` when the code has no unit attribute. |
| Validation.ExpectedNames | iamcompact_nomenclature/validation.py:277 | `to_list(expected_unit)` as a list of unit names: one name, the list itself, or no name for `None`. |
| Validation.ValidateUnit | iamcompact_nomenclature/validation.py:242-279 | `_validate_unit`: `None` when the unit equals the expected one. A single unit comes back when it is not the expected unit (or not in the expected list). Comparing it with a `None` expected unit raises `TypeError`. For a list of units, the result is exactly the units not expected, in order, or `None` when there are none. |
| Validation.DefaultDimensions | iamcompact_nomenclature/validation.py:53-55 | The default dimensions are those of the definition that the data frame also has, in the definition's order. |
| Validation.InvalidNamesFor | iamcompact_nomenclature/validation.py:58-61 | It succeeds exactly when every chosen dimension has a codelist and is a data-frame dimension, and otherwise raises `AttributeError`. Its keys are the dimensions in order, each once, and each holds the names not in that dimension's codelist. |
| Validation.GetInvalidNames | iamcompact_nomenclature/validation.py:27-62 | `get_invalid_names`: the success condition, the `AttributeError`, the key order and the entries as above, for the given or the default dimensions. |
| Validation.DefaultDimensionsAlwaysValid | iamcompact_nomenclature/validation.py:53-61 | With the default dimensions, the call cannot fail on a definition that has a codelist for each dimension it declares. The keys are the shared dimensions. |
| Validation.NativeModels | iamcompact_nomenclature/validation.py:139-154 | The processor's models that declare the region native, exactly. |
| Validation.NonNativeModels | iamcompact_nomenclature/validation.py:145-157 | The models using a region in the data for which it is not native, exactly. |
| Validation.InvalidCommonRegions | iamcompact_nomenclature/validation.py:133 | `get_invalid_names(iamdf, dsd)['region']`: the data's regions that the region codelist lacks, exactly. |
| Validation.RecordNext | iamcompact_nomenclature/validation.py:158-161 | One loop step keeps "the dict maps each region seen so far with a non-empty list to that list, and nothing else". |
| Validation.GetInvalidModelRegions | iamcompact_nomenclature/validation.py:83-166 | `get_invalid_model_regions`: the invalid combinations map each non-common region of the data with non-native models in use to exactly those models. Its keys are in sorted order. With `return_valid_native_combos`, the valid combinations map each such region to the processor models declaring it native, also in sorted key order. When `get_invalid_names` fails, its error is passed through. |
| Validation.CollectCombinations | iamcompact_nomenclature/validation.py:144-161 | The loop over the examined regions. Keys and entries of both dicts are as above, both dicts' keys are sorted, and it keeps the loop invariant. |
| Validation.RegionHasModel | iamcompact_nomenclature/validation.py:145-150 | Every region of the data is used by a model, so the `RuntimeError` branch is unreachable. |
| Validation.SameModelsUsing | iamcompact_nomenclature/validation.py:134-145 | Filtering to the examined regions first does not change the models seen with one of them. |
| Validation.CodeOf | iamcompact_nomenclature/validation.py:225 | `codelist[v]`, or `KeyError`. |
| Validation.CheckedVariables | iamcompact_nomenclature/validation.py:213-220 | All data variables when missing variables should raise. Otherwise only those the codelist defines, in order. |
| Validation.VerdictCases | iamcompact_nomenclature/validation.py:222-227 | The check of one variable raises `KeyError` when the data has no unit for it or the codelist lacks it. Otherwise it is `_validate_unit` of its code and unit. |
| Validation.UnitsFor | iamcompact_nomenclature/validation.py:222-223 | `[unit_mappings[v] for v in check_vars]`: one unit per variable, or `KeyError` exactly when one has none. |
| Validation.IssuesNext | iamcompact_nomenclature/validation.py:224-233 | The table for one more variable extends the previous one by that variable's row, if it has one. |
| Validation.IssuesExact | iamcompact_nomenclature/validation.py:224-238 | A row (variable, invalid, expected) is in the table exactly when the variable is checked, its verdict is that invalid unit and `expected` is its code's unit. |
| Validation.GetInvalidVariableUnits | iamcompact_nomenclature/validation.py:169-239 | `get_invalid_variable_units`: `AttributeError` without a definition or without the variable codelist. It succeeds exactly when every checked variable can be validated. A variable without a unit mapping raises `KeyError` before any check. Otherwise a failure carries the error of the first checked variable whose codelist lookup or `_validate_unit` fails. It returns `None` for an empty table and the table otherwise. |
| Validation.CollectIssues | iamcompact_nomenclature/validation.py:224-233 | The validation loop succeeds exactly when all checked variables validate, and then returns exactly the table of issues. A failure carries the error of the first variable that fails, every earlier one validating. |
| Validation.MissingVariableFails | iamcompact_nomenclature/validation.py:202-225 | With `raise_on_missing_var`, a data variable the codelist lacks makes the call fail. When every variable before it validates, the error is exactly `KeyError`. |
| Validation.DataVariablesHaveUnits | iamcompact_nomenclature/validation.py:222-223 | Every data variable has a unit mapping, so the unit lookup never fails on them. |
| Validation.CheckedVariablesHaveUnits | iamcompact_nomenclature/validation.py:213-223 | On the variable dimension, `unit_mappings[_var]` succeeds for every checked variable. With `GetInvalidVariableUnits`, a failure is then the error of the first checked variable that fails. |
| Mapping.SelectCombination | iamcompact_nomenclature/mapping.py:105-108 | `filter(region=r, model=models)`: exactly the rows of that region used by one of those models. |
| Mapping.DropCombination | iamcompact_nomenclature/mapping.py:97-100 | `filter(..., keep=False)`: exactly the other rows. |
| Mapping.DropNext | iamcompact_nomenclature/mapping.py:96-100 | Dropping one more combination from what is left equals dropping all of them from the input. |
| Mapping.EmptyStaysEmpty | iamcompact_nomenclature/mapping.py:100-101 | Once nothing is left, further drops leave nothing, so the early `break` does not change the result. |
| Mapping.ValidRows | iamcompact_nomenclature/mapping.py:96-102 | The rows handed to `apply`: exactly the rows that are not an invalid combination. |
| Mapping.InvalidRows | iamcompact_nomenclature/mapping.py:105-109 | Exactly the rows that are an invalid combination. |
| Mapping.Partition | iamcompact_nomenclature/mapping.py:96-109 | Kept and excluded rows are disjoint, and together they are the input, row for row (multiset). |
| Mapping.RemovedExactly | iamcompact_nomenclature/mapping.py:90-101 | A row is excluded exactly when its region is not a common region and is not native for its model. |
| Mapping.KeptAreValid | iamcompact_nomenclature/mapping.py:96-101 | What the drop loop leaves is exactly the valid rows, in input order. |
| Mapping.RemovedAreInvalid | iamcompact_nomenclature/mapping.py:105-108 | The rows the invalid combinations select are exactly the invalid rows. There are no invalid combinations exactly when there are no invalid rows. |
| Mapping.InvalidRowOf | iamcompact_nomenclature/mapping.py:90-95 | A region with non-native models in use has an invalid row. |
| Mapping.GroupsAreRemoved | iamcompact_nomenclature/mapping.py:105-110 | Concatenating the per-region selections gives every excluded row as often as the input has it. |
| Mapping.DropAll | iamcompact_nomenclature/mapping.py:96-101 | The loop result equals the input without all invalid combinations. |
| Mapping.MapRegions | iamcompact_nomenclature/mapping.py:45-110 | `map_regions`: the processed frame is `apply` of exactly the valid rows. With `return_excluded`, the excluded frame holds exactly the invalid rows (as a multiset). It raises `ValueError` when asked for an empty excluded frame. When `get_invalid_names` fails, its error is passed through. |
| MultiLoad.MergeCodelists | iamcompact_nomenclature/multi_load.py:114-154 | `merge_codelists`: `IndexError` exactly for no codelists. Otherwise it has the given or the first name, the first codelist's class, and the codes of all codelists with the earliest codelist winning. |
| MultiLoad.MergedCodeIsEarliest | iamcompact_nomenclature/multi_load.py:120-123 | A code is taken from the earliest codelist that has it. |
| MultiLoad.MergedCodeFromSome | iamcompact_nomenclature/multi_load.py:143-145 | A code is in the merged codelist exactly when some codelist has it. |
| MultiLoad.Union | iamcompact_nomenclature/multi_load.py:176-177 | `list(set.union(...))`: each declared name, once. |
| MultiLoad.MergeConfigs | iamcompact_nomenclature/multi_load.py:158-185 | `merge_configs`: `IndexError` for no configs. Otherwise a copy of the first config with the union of the declared dimensions and the repositories of all, the earliest config winning. |
| MultiLoad.MergedConfigDimensions | iamcompact_nomenclature/multi_load.py:176-177 | A merged dimension is one some config declares. A config without dimensions declares none. |
| MultiLoad.MergedRepositoryIsEarliest | iamcompact_nomenclature/multi_load.py:178-180 | A repository name that clashes keeps the earliest config's entry. |
| MultiLoad.CodelistsFor | iamcompact_nomenclature/multi_load.py:84-89 | The codelists of a dimension from the definitions that declare it, or `AttributeError` exactly when one of them lacks the codelist. It is empty exactly when no definition declares the dimension. |
| MultiLoad.CodelistsPerDimension | iamcompact_nomenclature/multi_load.py:84-89 | `dim_codelists_mapping`: one entry per dimension, failing exactly when one dimension's codelists cannot be collected. |
| MultiLoad.Projects | iamcompact_nomenclature/multi_load.py:98 | `[dsd.project ...]`: fails exactly when a definition is itself merged. |
| MultiLoad.NotMergeable | iamcompact_nomenclature/multi_load.py:84-93 | A dimension whose codelists cannot be collected makes the merge fail. |
| MultiLoad.MergeableFromParts | iamcompact_nomenclature/multi_load.py:84-93 | Every dimension having a non-empty list of codelists makes the merge succeed. |
| MultiLoad.MergeEach | iamcompact_nomenclature/multi_load.py:90-95 | The `setattr` loop: `IndexError` exactly when some dimension has no codelist. Otherwise every dimension holds the merge of its codelists. |
| MultiLoad.NewMergedDefinition | iamcompact_nomenclature/multi_load.py:64-103 | `MergedDataStructureDefinition(definitions, dimensions)` succeeds exactly when every dimension's codelists can be merged and no input is itself merged. The result has the union of the dimensions, one merged codelist per dimension, the per-definition configs, projects, folders and repos, and the merged config. |
| MultiLoad.CodelistPosition | iamcompact_nomenclature/multi_load.py:84-89 | The codelist of definition i sits in the dimension's list after only codelists of earlier definitions. |
| MultiLoad.MergedDefinitionCodeIsEarliest | iamcompact_nomenclature/multi_load.py:73-93 | In a merged definition, a code comes from the first definition, in priority order, whose codelist for that dimension has it. |
| MultiLoad.DimensionsPerPath | iamcompact_nomenclature/multi_load.py:268-284 | The dimensions per directory: `TypeError` for a non-sequence, `IndexError` for an empty sequence, `ValueError` for a length mismatch. Otherwise one entry per path. |
| MultiLoad.LoadAll | iamcompact_nomenclature/multi_load.py:286-289 | One object read per path, with that path's own argument, in path order (also the region maps of lines 361-364). |
| MultiLoad.ReadMultiDefinitions | iamcompact_nomenclature/multi_load.py:207-294 | `read_multi_definitions`: the argument errors above. Otherwise it succeeds exactly when the loaded definitions merge on their own dimensions. The result is their merge, plus the individual definitions exactly when asked for. |
| MultiLoad.RegionAndVariableMerged | iamcompact_nomenclature/multi_load.py:440-450 | A merge over `[['region', 'variable']] * n` has region and variable codelists, so the processor can be built. |
| MultiLoad.MergeRegionProcessors | iamcompact_nomenclature/multi_load.py:409-451 | `merge_region_processors` as written: `ValueError` without `merged_dsd` and `dsds`. The codelists come from `merged_dsd` or from the region/variable merge of `dsds`. The mappings are merged with the LAST processor winning. |
| MultiLoad.LaterRegionMappingWins | iamcompact_nomenclature/multi_load.py:444-446 | Two processors mapping model "m": the merge keeps the later mapping, not the earlier one. |
| MultiLoad.MergeRegionProcessorsFirstWins | iamcompact_nomenclature/multi_load.py:310-318 | The same merge with the documented precedence: the FIRST processor mapping a model wins. |
| MultiLoad.MergedMappingIsEarliest | iamcompact_nomenclature/multi_load.py:312-313 | With the corrected merge, a model's mapping comes from the first processor that maps it. |
| MultiLoad.DefinitionsPerPath | iamcompact_nomenclature/multi_load.py:348-359 | One definition for all paths, `TypeError` for a non-sequence, `ValueError` for a length mismatch. Otherwise one per path. |
| MultiLoad.ReadMultiRegionProcessors | iamcompact_nomenclature/multi_load.py:298-379 | `read_multi_region_processors` as written: the argument errors above. Without `merged_dsd`, it succeeds exactly when the definitions merge on region and variable. With `merged_dsd`, it succeeds exactly when they merge and `merged_dsd` has region and variable codelists, because of the extra merge at line 378. The mappings are merged with the LAST directory winning. The codelists are those of `merged_dsd`, or of the merge of the definitions. |
| MultiLoad.ReadMultiRegionProcessorsFirstWins | iamcompact_nomenclature/multi_load.py:310-318 | The same reader with the documented precedence: the same success conditions and codelists, and the FIRST directory mapping a model wins. |
| Dicts.Update | iamcompact_nomenclature/multi_load.py:145 | `dict.update`: later entries override. Old keys keep their positions and new keys are appended. |
| Dicts.FirstWinsEarliest | iamcompact_nomenclature/multi_load.py:144-145 | Updating from the last dict to the first keeps each key's value from the first dict that has it. |
| Dicts.FirstWinsKeys | iamcompact_nomenclature/multi_load.py:144-145 | The merged keys are exactly the keys of some dict. |
| Dicts.LastWinsLatest | iamcompact_nomenclature/multi_load.py:445-446 | Updating from the first dict to the last keeps each key's value from the last dict that has it. |
| Dicts.LastWinsKeys | iamcompact_nomenclature/multi_load.py:445-446 | The merged keys are exactly the keys of some dict. |
| Dicts.UpdateReversed | iamcompact_nomenclature/multi_load.py:143-145 | The reversed update loop computes the first-wins merge. |
| Dicts.UpdateForward | iamcompact_nomenclature/multi_load.py:444-446 | The forward update loop computes the last-wins merge. |
| DefaultDefinitions.DimensionsArgOf | iamcompact_nomenclature/default_definitions.py:44-53 | No dimensions leaves the choice to each directory. Otherwise the same names are used for every directory. |
| DefaultDefinitions.DefinitionCache.constructor | iamcompact_nomenclature/default_definitions.py:39-41 | The three caches start empty. |
| DefaultDefinitions.DefinitionCache.GetDsd | iamcompact_nomenclature/default_definitions.py:64-93 | `get_dsd`: a cached definition is returned unchanged unless a reload is forced. Otherwise it loads and caches the merged and the individual definitions. A forced reload empties the processor cache, and a failed load changes nothing. |
| DefaultDefinitions.DefinitionCache.GetRegionProcessor | iamcompact_nomenclature/default_definitions.py:97-115 | `get_region_processor`: a cached processor is returned unchanged unless a reload is forced. Otherwise it reads the mappings with the cached definition. Cached definitions are kept. When none is cached, it first loads and caches the merged and individual definitions with each directory's own dimensions, as `get_dsd()` does. |
| CodelistFormatter.Pick | iamcompact_nomenclature/dsd_utils/codelist_formatter.py:82-85 | `{n: getattr(code, n) for n in attr_names}`: `AttributeError` exactly for a missing attribute. Otherwise exactly the named attributes with the code's values, keyed in the order of the names, each at its first occurrence. |
| CodelistFormatter.WithoutNone | iamcompact_nomenclature/dsd_utils/codelist_formatter.py:90-95 | Exactly the attributes that are not `None`, with unchanged values. |
| CodelistFormatter.WithoutNoneKeepsOrder | iamcompact_nomenclature/dsd_utils/codelist_formatter.py:91-94 | Dropping `None` attributes keeps the order of the rest. |
| CodelistFormatter.WithoutNoneIdempotent | iamcompact_nomenclature/dsd_utils/codelist_formatter.py:90-95 | Dropping `None` attributes twice is dropping them once. |
| CodelistFormatter.GetAttributes | iamcompact_nomenclature/dsd_utils/codelist_formatter.py:75-96 | `get_attributes`: exactly the named attributes (or all of them) that are set, or also the `None` ones with `include_none`. The values are unchanged and the order is as given. |
| CodelistFormatter.GetAttributesDropsOnlyNone | iamcompact_nomenclature/dsd_utils/codelist_formatter.py:90-96 | `include_none=False` differs from `True` only by dropping `None` attributes. |
| CodelistFormatter.WithId | iamcompact_nomenclature/dsd_utils/codelist_formatter.py:110-111 | The id attribute is put in front of the requested names when it is missing. Otherwise the names are unchanged. |
| CodelistFormatter.Described | iamcompact_nomenclature/dsd_utils/codelist_formatter.py:117-122 | The attributes listed in the details part: all but the id attribute, in order. |
| CodelistFormatter.Format | iamcompact_nomenclature/dsd_utils/codelist_formatter.py:99-124 | `format` of one code succeeds exactly when the code has the id attribute and every requested attribute. Otherwise it raises `AttributeError`. |
| CodelistFormatter.FormatContent | iamcompact_nomenclature/dsd_utils/codelist_formatter.py:110-124 | A formatted code is the summary with the id value, one entry per set requested attribute other than the id (each once), and the closing tags. |
| CodelistFormatter.NewListFormatter | iamcompact_nomenclature/dsd_utils/codelist_formatter.py:136-141 | A default code formatter showing `name` when none is given. |
| CodelistFormatter.SortedCodeNamesOnce | iamcompact_nomenclature/dsd_utils/codelist_formatter.py:158 | `sorted(codelist.keys())`: sorted, each code once, exactly the codelist's codes. |
| CodelistFormatter.FormatList | iamcompact_nomenclature/dsd_utils/codelist_formatter.py:144-160 | The codelist document succeeds exactly when every code formats. It starts with the header carrying the title and ends with the closing tags. |
| CodelistFormatter.FormatListBody | iamcompact_nomenclature/dsd_utils/codelist_formatter.py:155-160 | The body is every code formatted once, in sorted order, joined by newlines. |
| Results.Each | iamcompact_nomenclature/multi_load.py:90-93 | A comprehension that may raise: it succeeds exactly when every element does, and then holds each element's result in order. Otherwise it raises the error of the first failing element. |

## Left out

- **pyam data frames.** The time dimension, the values, wildcard filtering and `pyam.concat` are not modelled; a data frame is its rows of (model, scenario, region, variable, unit). `pyam.concat([])` raising `ValueError` is taken as pyam's behaviour.
- **Reading from disk.** Reading YAML definitions and mappings (`DataStructureDefinition(path)`, `RegionProcessor.from_directory`) is a function parameter. Loader errors, the `RegionProcessor` constructor's own checks and `RegionProcessor.apply` are not modelled.
- **`validate_items`.** It is modelled as "the items that are not codes of the list, in order".
- **Code attributes.** A code's attributes are a dictionary lookup (`getattr` on a pydantic model).
- **Set order.** `list(set(...))` has an order Python leaves open. `MultiLoad.Union` takes first-occurrence order, and the contracts state only membership and uniqueness.
- **`dsd=None` and `region_processor=None`.** The fallback to the cached defaults in `get_invalid_names`, `get_invalid_model_regions` and `map_regions` is not modelled. The definition and processor are arguments; the cache is `DefaultDefinitions.DefinitionCache`.
- **`variable_dimname` in `get_aggregate_var` and `get_component_vars`.** The variable list is an argument, so the `AttributeError` of a name that is not a dimension is not modelled.
- **`get_invalid_variable_units` with `dsd=None`.** The function raises `AttributeError`; its docstring promises the default definition. The model follows the code.
- **Valid native combinations.** These list every processor model that declares the region native, whether or not the data uses that model, as the code does. The docstring's wording suggests only the models in the data.
- **A list of units.** For a variable with several units, the invalid entry holds only the invalid units, as the code does.
- **The `RuntimeError` branch of `get_invalid_model_regions`.** It is not modelled; `Validation.RegionHasModel` proves it unreachable.
- **The `dimensions` argument of `read_multi_definitions`.** It is either absent, not a sequence, one list of names, or a list of lists. A bare string (a sequence of one-letter names) and mixed lists are not modelled.
- Mapping.MapRegions: the excluded frame is stated as a multiset of rows, not its row order, which is `pyam.concat`'s.
- **Printing of lists.** `CodelistFormatter.Show` prints a list of strings as Python's `repr`, without escaping quotes inside the strings.
- **`MergedDataStructureDefinition.to_excel`.** It only raises `NotImplementedError`, so it is not modelled.
- **Dictionary keys.** Keys are strings throughout.

## Findings

| source | as written | input that shows it | evidently intended | confidence | as-written member | corrected member |
|---|---|---|---|---|---|---|
| iamcompact_nomenclature/multi_load.py:444-446 | `merge_region_processors` updates an empty dict with each processor's mappings from first to last, so the LAST processor mapping a model wins; `read_multi_region_processors` inherits this | two processors both mapping model "m", the first to native regions ["R5ASIA"], the second to ["R10CHINA+"]: the merge keeps ["R10CHINA+"] | the documented precedence (lines 310-318): the mapping from the first region map in `paths` is used, as `merge_codelists` and `merge_configs` do by updating in reverse order | not executed | MultiLoad.MergeRegionProcessors, MultiLoad.ReadMultiRegionProcessors, MultiLoad.LaterRegionMappingWins | MultiLoad.MergeRegionProcessorsFirstWins, MultiLoad.ReadMultiRegionProcessorsFirstWins, MultiLoad.MergedMappingIsEarliest |
