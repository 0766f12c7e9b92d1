/**
 * The shapes of the nomenclature objects the modelled code handles: codes,
 * codelists, configs, data structure definitions and region processors. Their
 * loading from YAML files is outside the model; loaders are parameters.
 */
module Definitions {
  import opened Results
  import opened Dicts

  /** An attribute value of a code: `None`, a string or a list of strings. */
  datatype Value = Null | Text(text: string) | TextList(items: seq<string>)

  /** A code is its attributes in declaration order; `name` is one of them. */
  type Code = Dict<Value>

  /** A codelist: its name, its class (`RegionCodeList`, `VariableCodeList`, ...) and its codes by name. */
  datatype CodeList = CodeList(name: string, kind: string, mapping: Dict<Code>)

  /**
   * A `NomenclatureConfig`: the dimensions it declares, its repositories by
   * name, and the remaining settings, which the modelled code only copies.
   */
  datatype Config = Config(dimensions: Option<seq<string>>, repositories: Dict<string>, settings: string)

  /**
   * A `DataStructureDefinition` read from one directory, or a
   * `MergedDataStructureDefinition`, which keeps one config, project, folder
   * and repository per merged definition instead of a single one.
   */
  datatype Definition =
    | Loaded(dimensions: seq<string>, codelists: map<string, CodeList>, config: Config,
             project: string, projectFolder: string, repo: Option<string>)
    | Merged(dimensions: seq<string>, codelists: map<string, CodeList>, config: Config,
             configs: seq<Config>, projects: seq<string>, projectFolders: seq<string>,
             repos: seq<Option<string>>)

  /** `getattr(dsd, dim)`: the codelist of a dimension, or an `AttributeError`. */
  function CodelistOf(dsd: Definition, dim: string): (r: Result<CodeList>)
    ensures r.Success? <==> dim in dsd.codelists
    ensures r.Success? ==> r.value == dsd.codelists[dim]
    ensures r.Failure? ==> r.error == AttributeError
  {
    if dim in dsd.codelists then Success(dsd.codelists[dim]) else Failure(AttributeError)
  }

  /** `dsd.project`, `dsd.project_folder`, `dsd.repo`: a merged definition has none of them. */
  function ProjectOf(dsd: Definition): (r: Result<string>)
    ensures r.Success? <==> dsd.Loaded?
  {
    if dsd.Loaded? then Success(dsd.project) else Failure(AttributeError)
  }

  function ProjectFolderOf(dsd: Definition): (r: Result<string>)
    ensures r.Success? <==> dsd.Loaded?
  {
    if dsd.Loaded? then Success(dsd.projectFolder) else Failure(AttributeError)
  }

  function RepoOf(dsd: Definition): (r: Result<Option<string>>)
    ensures r.Success? <==> dsd.Loaded?
  {
    if dsd.Loaded? then Success(dsd.repo) else Failure(AttributeError)
  }

  /** `codelist.validate_items(items)`: the items that are not codes of the list, in order. */
  function InvalidItems(codelist: CodeList, items: seq<string>): (r: seq<string>)
    ensures forall x :: x in r <==> x in items && x !in codelist.mapping.keys
    ensures |r| <= |items|
  {
    if items == [] then []
    else
      var rest := InvalidItems(codelist, items[1..]);
      assert forall x :: x in items <==> x == items[0] || x in items[1..];
      if items[0] in codelist.mapping.entries then rest else [items[0]] + rest
  }

  /** The mapping of one model's native regions: the names it declares. */
  datatype RegionMapping = RegionMapping(nativeRegions: seq<string>)

  /** A `RegionProcessor`: one region mapping per model, and the codelists it checks against. */
  datatype Processor = Processor(mappings: Dict<RegionMapping>, regionCodes: CodeList, variableCodes: CodeList)
}
