/**
 * The package's default definitions: the merged data structure definition
 * read from the bundled definition directories and the region processor read
 * from the bundled mappings, each loaded on first use and cached until a
 * reload is forced. The three module-level caches are the fields of one
 * `DefinitionCache` object.
 */
module DefaultDefinitions {
  import opened Results
  import opened Definitions
  import opened MultiLoad

  /** The definition directories, in priority order. */
  const DefinitionsPaths: seq<string> := [
    "data/iamcompact-nomenclature-definitions/definitions",
    "data/common-definitions-fork/definitions"
  ]

  const MappingsPath: string := "data/iamcompact-nomenclature-definitions/mappings"

  /** The dimensions the default definition is documented to provide (kept for outside users). */
  const DefaultDimensions: seq<string> := ["model", "scenario", "region", "variable"]

  /** The `dimensions` argument `_load_definitions` passes on to `read_multi_definitions`. */
  function DimensionsArgOf(dimensions: Option<seq<string>>): (r: DimensionsArg)
    ensures dimensions.None? <==> r.Unset?
    ensures dimensions.Some? ==> r == Names(dimensions.value)
  {
    if dimensions.None? then Unset else Names(dimensions.value)
  }

  class DefinitionCache {
    /** `_dsd`, `_individual_dsds` and `_region_processor`: `None` until loaded. */
    var dsd: Option<Definition>
    var individualDsds: Option<seq<Definition>>
    var regionProcessor: Option<Processor>

    /** Reading one definition directory and one mappings directory (`nomenclature`'s loaders). */
    const loadDefinition: (string, Option<seq<string>>) -> Definition
    const loadProcessor: (string, Definition) -> Processor

    /**
     * The caches agree: the merged and the individual definitions are loaded
     * together, and a region processor is only ever loaded after the
     * definitions it was read with.
     */
    ghost predicate Valid()
      reads this
    {
      (dsd.Some? <==> individualDsds.Some?) && (regionProcessor.Some? ==> dsd.Some?)
    }

    constructor (loadDefinition: (string, Option<seq<string>>) -> Definition, loadProcessor: (string, Definition) -> Processor)
      ensures Valid()
      ensures dsd.None? && individualDsds.None? && regionProcessor.None?
      ensures this.loadDefinition == loadDefinition && this.loadProcessor == loadProcessor
    {
      dsd := None;
      individualDsds := None;
      regionProcessor := None;
      this.loadDefinition := loadDefinition;
      this.loadProcessor := loadProcessor;
    }

    /** The individual definitions a load with `dimensions` reads, when the argument is usable. */
    ghost function Individual(dimensions: Option<seq<string>>): seq<Definition>
      requires DimensionsPerPath(DimensionsArgOf(dimensions), |DefinitionsPaths|).Success?
    {
      LoadAll(DefinitionsPaths, DimensionsPerPath(DimensionsArgOf(dimensions), |DefinitionsPaths|).value, loadDefinition)
    }

    /** A load with `dimensions` succeeds: the argument is usable and the definitions it reads merge. */
    ghost predicate Loadable(dimensions: Option<seq<string>>) {
      DimensionsPerPath(DimensionsArgOf(dimensions), |DefinitionsPaths|).Success? &&
      MergeSucceeds(Individual(dimensions), OwnDimensions(Individual(dimensions)))
    }

    /**
     * `get_dsd(force_reload, dimensions)`: the cached definition, loaded first
     * when nothing is cached or a reload is forced. With a definition cached
     * and no reload forced, `dimensions` is ignored and nothing changes. A
     * forced reload empties the region-processor cache; a failed load changes
     * nothing.
     */
    method GetDsd(forceReload: bool, dimensions: Option<seq<string>>) returns (r: Result<Definition>)
      requires Valid()
      modifies this
      ensures Valid()
      ensures old(dsd).Some? && !forceReload ==> r == Success(old(dsd).value) && unchanged(this)
      ensures old(dsd).None? || forceReload ==>
        (r.Success? <==> Loadable(dimensions)) &&
        (r.Failure? ==> unchanged(this)) &&
        (r.Success? ==>
          dsd == Some(r.value) && individualDsds == Some(Individual(dimensions)) &&
          IsMergedDefinition(r.value, Individual(dimensions), OwnDimensions(Individual(dimensions))) &&
          regionProcessor == (if forceReload then None else old(regionProcessor)))
    {
      if dsd.None? || forceReload {
        var read := ReadMultiDefinitions(DefinitionsPaths, DimensionsArgOf(dimensions), true, loadDefinition);
        if read.Failure? {
          return Failure(read.error);
        }
        dsd := Some(read.value.merged);
        individualDsds := Some(read.value.individual);
      }
      if forceReload {
        regionProcessor := None;
      }
      return Success(dsd.value);
    }

    /**
     * `get_region_processor(force_reload)`: the cached region processor, loaded
     * first when nothing is cached or a reload is forced. Loading reads the
     * mappings with the cached definition, which `get_dsd()` loads first, with
     * each directory's own dimensions, when none is cached; a forced reload of
     * the processor never reloads cached definitions.
     */
    method GetRegionProcessor(forceReload: bool) returns (r: Result<Processor>)
      requires Valid()
      modifies this
      ensures Valid()
      ensures old(regionProcessor).Some? && !forceReload ==> r == Success(old(regionProcessor).value) && unchanged(this)
      ensures old(regionProcessor).None? || forceReload ==>
        (old(dsd).Some? ==> r.Success? && dsd == old(dsd) && individualDsds == old(individualDsds)) &&
        (old(dsd).None? ==> (r.Success? <==> Loadable(None))) &&
        (old(dsd).None? && r.Success? ==>
          dsd.Some? && individualDsds == Some(Individual(None)) &&
          IsMergedDefinition(dsd.value, Individual(None), OwnDimensions(Individual(None)))) &&
        (r.Failure? ==> unchanged(this)) &&
        (r.Success? ==>
          dsd.Some? && regionProcessor == Some(loadProcessor(MappingsPath, dsd.value)) &&
          r == Success(regionProcessor.value))
    {
      if regionProcessor.None? || forceReload {
        var definition := GetDsd(false, None);
        if definition.Failure? {
          return Failure(definition.error);
        }
        regionProcessor := Some(loadProcessor(MappingsPath, definition.value));
      }
      return Success(regionProcessor.value);
    }
  }
}
