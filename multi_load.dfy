/**
 * Reading several definition directories and merging what they define, in
 * priority order: the first directory is the most important one. Reading a
 * directory is outside the model; loaders are parameters.
 */
module MultiLoad {
  import opened Results
  import opened Seqs
  import opened Dicts
  import opened Definitions

  // ---------------------------------------------------------------- codelists

  /** The code mappings of `cls`, in order. */
  function CodeMaps(cls: seq<CodeList>): (r: seq<Dict<Code>>)
    ensures |r| == |cls|
    ensures forall i :: 0 <= i < |cls| ==> r[i] == cls[i].mapping
    decreases |cls|
  {
    if cls == [] then [] else [cls[0].mapping] + CodeMaps(cls[1..])
  }

  /**
   * `c` merges `cls`: it has the given name or the first codelist's, the first
   * codelist's class, and every code of every codelist, taken from the
   * earliest codelist that has it.
   */
  predicate IsMergedCodelist(c: CodeList, cls: seq<CodeList>, name: Option<string>) {
    |cls| > 0 &&
    c.name == (if name.None? then cls[0].name else name.value) &&
    c.kind == cls[0].kind &&
    c.mapping.entries == FirstWins(CodeMaps(cls))
  }

  /** `MergedDataStructureDefinition.merge_codelists(codelists, name)` */
  method MergeCodelists(cls: seq<CodeList>, name: Option<string>) returns (r: Result<CodeList>)
    ensures r.Success? <==> |cls| > 0
    ensures r.Failure? ==> r.error == IndexError
    ensures r.Success? ==> IsMergedCodelist(r.value, cls, name)
  {
    if |cls| == 0 {
      return Failure(IndexError);
    }
    var mergedName := if name.None? then cls[0].name else name.value;
    var mapping := UpdateReversed(CodeMaps(cls));
    return Success(CodeList(mergedName, cls[0].kind, mapping));
  }

  /** A code is in the merged codelist iff some codelist has it, and it comes from the earliest of them. */
  lemma MergedCodeIsEarliest(c: CodeList, cls: seq<CodeList>, name: Option<string>, k: string, i: nat)
    requires IsMergedCodelist(c, cls, name)
    requires i < |cls| && k in cls[i].mapping.keys
    requires forall j :: 0 <= j < i ==> k !in cls[j].mapping.keys
    ensures k in c.mapping.keys && c.mapping.entries[k] == cls[i].mapping.entries[k]
  {
    FirstWinsEarliest(CodeMaps(cls), i, k);
  }

  lemma MergedCodeFromSome(c: CodeList, cls: seq<CodeList>, name: Option<string>, k: string)
    requires IsMergedCodelist(c, cls, name)
    ensures k in c.mapping.keys <==> exists i :: 0 <= i < |cls| && k in cls[i].mapping.keys
  {
    FirstWinsKeys(CodeMaps(cls), k);
  }

  // ---------------------------------------------------------------- configs

  /** `_c.dimensions or list()` */
  function DeclaredDimensions(c: Config): seq<string> {
    if c.dimensions.None? then [] else c.dimensions.value
  }

  function ConfigDimensions(configs: seq<Config>): (r: seq<seq<string>>)
    ensures |r| == |configs|
    ensures forall i :: 0 <= i < |configs| ==> r[i] == DeclaredDimensions(configs[i])
    decreases |configs|
  {
    if configs == [] then [] else [DeclaredDimensions(configs[0])] + ConfigDimensions(configs[1..])
  }

  function Repositories(configs: seq<Config>): (r: seq<Dict<string>>)
    ensures |r| == |configs|
    ensures forall i :: 0 <= i < |configs| ==> r[i] == configs[i].repositories
    decreases |configs|
  {
    if configs == [] then [] else [configs[0].repositories] + Repositories(configs[1..])
  }

  /**
   * `list(set(...))` of several name lists: each name of any list, once. Python
   * leaves the order of a set open; the model takes first-occurrence order and
   * states only membership and uniqueness.
   */
  function Union(lists: seq<seq<string>>): (r: seq<string>)
    ensures NoDuplicates(r)
    ensures forall x :: x in r <==> exists i :: 0 <= i < |lists| && x in lists[i]
  {
    Distinct(Flatten(lists))
  }

  /**
   * `c` merges `configs`: a copy of the first with the union of all declared
   * dimensions, and the repositories of all, the earliest config winning.
   */
  predicate IsMergedConfig(c: Config, configs: seq<Config>) {
    |configs| > 0 &&
    c.settings == configs[0].settings &&
    c.dimensions == Some(Union(ConfigDimensions(configs))) &&
    c.repositories.entries == FirstWins(Repositories(configs))
  }

  /** `MergedDataStructureDefinition.merge_configs(configs)` */
  method MergeConfigs(configs: seq<Config>) returns (r: Result<Config>)
    ensures r.Success? <==> |configs| > 0
    ensures r.Failure? ==> r.error == IndexError
    ensures r.Success? ==> IsMergedConfig(r.value, configs)
  {
    if |configs| == 0 {
      return Failure(IndexError);
    }
    var dimensions := Union(ConfigDimensions(configs));
    var repositories := UpdateReversed(Repositories(configs));
    return Success(Config(Some(dimensions), repositories, configs[0].settings));
  }

  /** The merged dimensions are those some config declares; a config without any counts as declaring none. */
  lemma MergedConfigDimensions(c: Config, configs: seq<Config>, d: string)
    requires IsMergedConfig(c, configs)
    ensures d in c.dimensions.value <==>
      exists i :: 0 <= i < |configs| && configs[i].dimensions.Some? && d in configs[i].dimensions.value
  {
    var lists := ConfigDimensions(configs);
    if d in c.dimensions.value {
      var i :| 0 <= i < |lists| && d in lists[i];
      assert configs[i].dimensions.Some?;
    }
    if exists i :: 0 <= i < |configs| && configs[i].dimensions.Some? && d in configs[i].dimensions.value {
      var i :| 0 <= i < |configs| && configs[i].dimensions.Some? && d in configs[i].dimensions.value;
      assert d in lists[i];
    }
  }

  /** A repository name clashing between configs keeps the earliest config's entry. */
  lemma MergedRepositoryIsEarliest(c: Config, configs: seq<Config>, k: string, i: nat)
    requires IsMergedConfig(c, configs)
    requires i < |configs| && k in configs[i].repositories.keys
    requires forall j :: 0 <= j < i ==> k !in configs[j].repositories.keys
    ensures k in c.repositories.keys && c.repositories.entries[k] == configs[i].repositories.entries[k]
  {
    FirstWinsEarliest(Repositories(configs), i, k);
  }

  // ---------------------------------------------------------------- merged definitions

  /** `[_dsd.dimensions for _dsd in definitions]` */
  function OwnDimensions(definitions: seq<Definition>): (r: seq<seq<string>>)
    ensures |r| == |definitions|
    ensures forall i :: 0 <= i < |definitions| ==> r[i] == definitions[i].dimensions
    decreases |definitions|
  {
    if definitions == [] then [] else [definitions[0].dimensions] + OwnDimensions(definitions[1..])
  }

  /** Every definition that declares `d` (pairing definitions with `dims` as `zip` does) has a codelist for it. */
  predicate HasDeclaredCodelists(definitions: seq<Definition>, dims: seq<seq<string>>, d: string) {
    forall i :: 0 <= i < |definitions| && i < |dims| && d in dims[i] ==> d in definitions[i].codelists
  }

  /** Some definition declares `d`. */
  predicate Declared(definitions: seq<Definition>, dims: seq<seq<string>>, d: string) {
    exists i :: 0 <= i < |definitions| && i < |dims| && d in dims[i]
  }

  /**
   * `[getattr(_dsd, d) for _dsd, _dsd_dims in zip(definitions, dims) if d in _dsd_dims]`:
   * the codelists of `d` from the definitions that declare it, in priority
   * order, or the `AttributeError` of one that declares it without having it.
   */
  function CodelistsFor(definitions: seq<Definition>, dims: seq<seq<string>>, d: string): (r: Result<seq<CodeList>>)
    ensures r.Success? <==> HasDeclaredCodelists(definitions, dims, d)
    ensures r.Failure? ==> r.error == AttributeError
    ensures r.Success? ==> (r.value == [] <==> !Declared(definitions, dims, d))
    decreases |definitions|
  {
    if definitions == [] || dims == [] then Success([])
    else if d in dims[0] then
      var first :- CodelistOf(definitions[0], d);
      var rest :- CodelistsFor(definitions[1..], dims[1..], d);
      Success([first] + rest)
    else CodelistsFor(definitions[1..], dims[1..], d)
  }

  /** `dim_codelists_mapping`, one entry per dimension of `allDims`. */
  function CodelistsPerDimension(definitions: seq<Definition>, dims: seq<seq<string>>, allDims: seq<string>): (r: Result<seq<seq<CodeList>>>)
    ensures r.Success? <==> forall j :: 0 <= j < |allDims| ==> CodelistsFor(definitions, dims, allDims[j]).Success?
    ensures r.Failure? ==> r.error == AttributeError
    ensures r.Success? ==> |r.value| == |allDims|
    ensures r.Success? ==> forall j :: 0 <= j < |allDims| ==> r.value[j] == CodelistsFor(definitions, dims, allDims[j]).value
  {
    Each(allDims, d => CodelistsFor(definitions, dims, d))
  }

  /** `[dsd.project for dsd in definitions]`: a merged definition has no single project. */
  function Projects(definitions: seq<Definition>): (r: Result<seq<string>>)
    ensures r.Success? <==> forall i :: 0 <= i < |definitions| ==> definitions[i].Loaded?
    ensures r.Failure? ==> r.error == AttributeError
    ensures r.Success? ==> |r.value| == |definitions|
    ensures r.Success? ==> forall i :: 0 <= i < |definitions| ==> r.value[i] == definitions[i].project
    decreases |definitions|
  {
    if definitions == [] then Success([])
    else
      var first :- ProjectOf(definitions[0]);
      var rest :- Projects(definitions[1..]);
      Success([first] + rest)
  }

  function ProjectFolders(definitions: seq<Definition>): (r: Result<seq<string>>)
    ensures r.Success? <==> forall i :: 0 <= i < |definitions| ==> definitions[i].Loaded?
    ensures r.Success? ==> |r.value| == |definitions|
    ensures r.Success? ==> forall i :: 0 <= i < |definitions| ==> r.value[i] == definitions[i].projectFolder
    decreases |definitions|
  {
    if definitions == [] then Success([])
    else
      var first :- ProjectFolderOf(definitions[0]);
      var rest :- ProjectFolders(definitions[1..]);
      Success([first] + rest)
  }

  function Repos(definitions: seq<Definition>): (r: Result<seq<Option<string>>>)
    ensures r.Success? <==> forall i :: 0 <= i < |definitions| ==> definitions[i].Loaded?
    ensures r.Success? ==> |r.value| == |definitions|
    ensures r.Success? ==> forall i :: 0 <= i < |definitions| ==> r.value[i] == definitions[i].repo
    decreases |definitions|
  {
    if definitions == [] then Success([])
    else
      var first :- RepoOf(definitions[0]);
      var rest :- Repos(definitions[1..]);
      Success([first] + rest)
  }

  /** `[dsd.config for dsd in definitions]` */
  function Configs(definitions: seq<Definition>): (r: seq<Config>)
    ensures |r| == |definitions|
    ensures forall i :: 0 <= i < |definitions| ==> r[i] == definitions[i].config
    decreases |definitions|
  {
    if definitions == [] then [] else [definitions[0].config] + Configs(definitions[1..])
  }

  /** The dimensions `MergedDataStructureDefinition(definitions, dimensions)` uses for each definition. */
  function DimensionsUsed(definitions: seq<Definition>, dimensions: Option<seq<seq<string>>>): seq<seq<string>> {
    if dimensions.None? then OwnDimensions(definitions) else dimensions.value
  }

  /** Every dimension of `dims` has at least one codelist, and no declared codelist is missing. */
  predicate Mergeable(definitions: seq<Definition>, dims: seq<seq<string>>) {
    forall d :: d in Union(dims) ==> CodelistsFor(definitions, dims, d).Success? && CodelistsFor(definitions, dims, d).value != []
  }

  /** A dimension without codelists, or whose codelists cannot all be found, makes the definitions unmergeable. */
  lemma NotMergeableAt(definitions: seq<Definition>, dims: seq<seq<string>>, j: nat)
    requires j < |Union(dims)|
    requires var c := CodelistsFor(definitions, dims, Union(dims)[j]); c.Failure? || c.value == []
    ensures !Mergeable(definitions, dims)
  {
    assert Union(dims)[j] in Union(dims);
  }

  lemma NotMergeable(definitions: seq<Definition>, dims: seq<seq<string>>)
    requires CodelistsPerDimension(definitions, dims, Union(dims)).Failure?
    ensures !Mergeable(definitions, dims)
  {
    var allDims := Union(dims);
    var j :| 0 <= j < |allDims| && CodelistsFor(definitions, dims, allDims[j]).Failure?;
    NotMergeableAt(definitions, dims, j);
  }

  lemma MergeableFromParts(definitions: seq<Definition>, dims: seq<seq<string>>)
    requires var p := CodelistsPerDimension(definitions, dims, Union(dims));
      p.Success? && forall k :: 0 <= k < |p.value| ==> p.value[k] != []
    ensures Mergeable(definitions, dims)
  {
    var allDims := Union(dims);
    var p := CodelistsPerDimension(definitions, dims, allDims);
    forall d | d in allDims
      ensures CodelistsFor(definitions, dims, d).Success? && CodelistsFor(definitions, dims, d).value != []
    {
      var k :| 0 <= k < |allDims| && allDims[k] == d;
      assert p.value[k] != [];
    }
  }

  /** The condition on the codelist of dimension `d` after merging. */
  function MergedFor(definitions: seq<Definition>, dims: seq<seq<string>>): (string, CodeList) -> bool {
    (d, c) => CodelistsFor(definitions, dims, d).Success? &&
      IsMergedCodelist(c, CodelistsFor(definitions, dims, d).value, None)
  }

  lemma MergedForHolds(definitions: seq<Definition>, dims: seq<seq<string>>, d: string, c: CodeList)
    requires CodelistsFor(definitions, dims, d).Success?
    requires IsMergedCodelist(c, CodelistsFor(definitions, dims, d).value, None)
    ensures MergedFor(definitions, dims)(d, c)
  {
  }

  /** A map filled key by key: it holds the first `j` keys, each with a value that satisfies `ok`. */
  ghost predicate FilledUpTo<V>(m: map<string, V>, keys: seq<string>, j: nat, ok: (string, V) -> bool)
    requires j <= |keys|
  {
    (forall d :: d in m <==> d in keys[..j]) && forall d :: d in m ==> ok(d, m[d])
  }

  lemma FilledNext<V>(m: map<string, V>, keys: seq<string>, j: nat, v: V, ok: (string, V) -> bool)
    requires j < |keys|
    requires FilledUpTo(m, keys, j, ok)
    requires ok(keys[j], v)
    ensures FilledUpTo(m[keys[j] := v], keys, j + 1, ok)
  {
    PrefixMembers(keys, j);
  }

  /**
   * The `setattr` loop: merges the codelists of each dimension in turn and
   * stores the result under the dimension's name.
   */
  method MergeEach(ghost definitions: seq<Definition>, ghost dims: seq<seq<string>>, allDims: seq<string>,
                   perDim: seq<seq<CodeList>>) returns (r: Result<map<string, CodeList>>)
    requires |perDim| == |allDims|
    requires forall j :: 0 <= j < |allDims| ==>
      CodelistsFor(definitions, dims, allDims[j]).Success? && perDim[j] == CodelistsFor(definitions, dims, allDims[j]).value
    ensures r.Success? <==> forall j :: 0 <= j < |perDim| ==> perDim[j] != []
    ensures r.Failure? ==> r.error == IndexError
    ensures r.Success? ==> FilledUpTo(r.value, allDims, |allDims|, MergedFor(definitions, dims))
  {
    var codelists: map<string, CodeList> := map[];
    ghost var ok := MergedFor(definitions, dims);
    for j := 0 to |allDims|
      invariant FilledUpTo(codelists, allDims, j, ok)
      invariant forall k :: 0 <= k < j ==> perDim[k] != []
    {
      var merged := MergeCodelists(perDim[j], None);
      if merged.Failure? {
        return Failure(merged.error);
      }
      MergedForHolds(definitions, dims, allDims[j], merged.value);
      FilledNext(codelists, allDims, j, merged.value, ok);
      codelists := codelists[allDims[j] := merged.value];
    }
    return Success(codelists);
  }

  /** When `MergedDataStructureDefinition(definitions, dimensions)` returns instead of raising. */
  predicate MergeSucceeds(definitions: seq<Definition>, dims: seq<seq<string>>) {
    Mergeable(definitions, dims) && |definitions| > 0 && forall i :: 0 <= i < |definitions| ==> definitions[i].Loaded?
  }

  /**
   * `m` merges `definitions`, with `dims` the dimensions taken from each: the
   * union of the dimensions, one merged codelist per dimension, the
   * per-definition lists in priority order and the merged config.
   */
  ghost predicate IsMergedDefinition(m: Definition, definitions: seq<Definition>, dims: seq<seq<string>>) {
    m.Merged? &&
    NoDuplicates(m.dimensions) &&
    (forall d :: d in m.dimensions <==> exists i :: 0 <= i < |dims| && d in dims[i]) &&
    (forall d :: d in m.codelists <==> d in m.dimensions) &&
    (forall d :: d in m.codelists ==> MergedFor(definitions, dims)(d, m.codelists[d])) &&
    |m.configs| == |definitions| && |m.projects| == |definitions| &&
    |m.projectFolders| == |definitions| && |m.repos| == |definitions| &&
    (forall i :: 0 <= i < |definitions| ==>
      definitions[i].Loaded? &&
      m.configs[i] == definitions[i].config && m.projects[i] == definitions[i].project &&
      m.projectFolders[i] == definitions[i].projectFolder && m.repos[i] == definitions[i].repo) &&
    IsMergedConfig(m.config, Configs(definitions))
  }

  /**
   * `MergedDataStructureDefinition(definitions, dimensions)`: the union of the
   * dimensions, one merged codelist per dimension (the `setattr` loop fills the
   * codelist map), the per-definition lists and the merged config.
   */
  method NewMergedDefinition(definitions: seq<Definition>, dimensions: Option<seq<seq<string>>>) returns (r: Result<Definition>)
    ensures r.Success? <==> MergeSucceeds(definitions, DimensionsUsed(definitions, dimensions))
    ensures r.Failure? ==> r.error == AttributeError || r.error == IndexError
    ensures r.Success? ==> IsMergedDefinition(r.value, definitions, DimensionsUsed(definitions, dimensions))
  {
    var dims := DimensionsUsed(definitions, dimensions);
    var allDims := Union(dims);
    var perDim := CodelistsPerDimension(definitions, dims, allDims);
    if perDim.Failure? {
      NotMergeable(definitions, dims);
      return Failure(perDim.error);
    }
    var merged := MergeEach(definitions, dims, allDims, perDim.value);
    if merged.Failure? {
      var j :| 0 <= j < |allDims| && perDim.value[j] == [];
      NotMergeableAt(definitions, dims, j);
      return Failure(merged.error);
    }
    var codelists := merged.value;
    MergeableFromParts(definitions, dims);
    assert allDims[..|allDims|] == allDims;
    var configs := Configs(definitions);
    var projects :- Projects(definitions);
    var projectFolders := ProjectFolders(definitions);
    var repos := Repos(definitions);
    var config :- MergeConfigs(configs);
    return Success(Merged(allDims, codelists, config, configs, projects, projectFolders.value, repos.value));
  }

  /** `c` is the codelist for `d` of a definition before the `i`-th that declares `d`. */
  ghost predicate EarlierCodelist(definitions: seq<Definition>, dims: seq<seq<string>>, d: string, i: nat, c: CodeList) {
    exists j :: 0 <= j < i && j < |definitions| && j < |dims| && d in dims[j] && d in definitions[j].codelists &&
      c == definitions[j].codelists[d]
  }

  lemma EarlierShift(definitions: seq<Definition>, dims: seq<seq<string>>, d: string, i: nat, c: CodeList)
    requires definitions != [] && dims != []
    requires EarlierCodelist(definitions[1..], dims[1..], d, i, c)
    ensures EarlierCodelist(definitions, dims, d, i + 1, c)
  {
    var j :| 0 <= j < i && j < |definitions[1..]| && j < |dims[1..]| && d in dims[1..][j] &&
      d in definitions[1..][j].codelists && c == definitions[1..][j].codelists[d];
    assert definitions[1..][j] == definitions[j + 1] && dims[1..][j] == dims[j + 1];
  }

  /** One step of `CodelistsFor`: the first definition contributes its codelist when it declares `d`. */
  lemma CodelistsForCons(definitions: seq<Definition>, dims: seq<seq<string>>, d: string)
    requires definitions != [] && dims != []
    requires CodelistsFor(definitions, dims, d).Success?
    ensures CodelistsFor(definitions[1..], dims[1..], d).Success?
    ensures d in dims[0] ==> d in definitions[0].codelists
    ensures d in dims[0] ==>
      CodelistsFor(definitions, dims, d).value ==
      [definitions[0].codelists[d]] + CodelistsFor(definitions[1..], dims[1..], d).value
    ensures d !in dims[0] ==>
      CodelistsFor(definitions, dims, d).value == CodelistsFor(definitions[1..], dims[1..], d).value
  {
  }

  /** Codelists of earlier definitions stay earlier when one more definition is put in front. */
  lemma EarlierAll(definitions: seq<Definition>, dims: seq<seq<string>>, d: string, i: nat,
                   front: seq<CodeList>, rest: seq<CodeList>, n: nat)
    requires definitions != [] && dims != [] && n <= |rest|
    requires front == [] || (|front| == 1 && d in dims[0] && d in definitions[0].codelists &&
      front[0] == definitions[0].codelists[d])
    requires forall q :: 0 <= q < n ==> EarlierCodelist(definitions[1..], dims[1..], d, i, rest[q])
    ensures forall q :: 0 <= q < |front| + n ==> EarlierCodelist(definitions, dims, d, i + 1, (front + rest)[q])
  {
    forall q | 0 <= q < |front| + n ensures EarlierCodelist(definitions, dims, d, i + 1, (front + rest)[q]) {
      if q < |front| {
        assert (front + rest)[q] == definitions[0].codelists[d];
      } else {
        assert (front + rest)[q] == rest[q - |front|];
        EarlierShift(definitions, dims, d, i, rest[q - |front|]);
      }
    }
  }

  /**
   * Where the codelist of definition `i` sits in `CodelistsFor(definitions, dims, d)`:
   * every codelist before it belongs to an earlier definition that declares `d`.
   */
  lemma {:induction false} CodelistPosition(definitions: seq<Definition>, dims: seq<seq<string>>, d: string, i: nat)
      returns (p: nat)
    requires CodelistsFor(definitions, dims, d).Success?
    requires i < |definitions| && i < |dims| && d in dims[i]
    ensures d in definitions[i].codelists
    ensures var cls := CodelistsFor(definitions, dims, d).value;
      p < |cls| && cls[p] == definitions[i].codelists[d] &&
      forall q :: 0 <= q < p ==> EarlierCodelist(definitions, dims, d, i, cls[q])
    decreases i
  {
    CodelistsForCons(definitions, dims, d);
    if i == 0 {
      p := 0;
    } else {
      assert definitions[1..][i - 1] == definitions[i] && dims[1..][i - 1] == dims[i];
      var p' := CodelistPosition(definitions[1..], dims[1..], d, i - 1);
      var rest := CodelistsFor(definitions[1..], dims[1..], d).value;
      var front := if d in dims[0] then [definitions[0].codelists[d]] else [];
      assert CodelistsFor(definitions, dims, d).value == front + rest;
      p := PositionStep(definitions, dims, d, i - 1, front, rest, definitions[i].codelists[d], p');
    }
  }

  /** The position of a codelist in `front + rest`, from its position in `rest`. */
  lemma PositionStep(definitions: seq<Definition>, dims: seq<seq<string>>, d: string, i: nat,
                     front: seq<CodeList>, rest: seq<CodeList>, c: CodeList, p': nat) returns (p: nat)
    requires definitions != [] && dims != []
    requires front == [] || (|front| == 1 && d in dims[0] && d in definitions[0].codelists &&
      front[0] == definitions[0].codelists[d])
    requires p' < |rest| && rest[p'] == c
    requires forall q :: 0 <= q < p' ==> EarlierCodelist(definitions[1..], dims[1..], d, i, rest[q])
    ensures p < |front + rest| && (front + rest)[p] == c
    ensures forall q :: 0 <= q < p ==> EarlierCodelist(definitions, dims, d, i + 1, (front + rest)[q])
  {
    EarlierAll(definitions, dims, d, i, front, rest, p');
    p := |front| + p';
  }

  /**
   * The merging rule of `read_multi_definitions`: a code of a merged dimension
   * comes from the first definition, in priority order, whose codelist for that
   * dimension has it.
   */
  lemma MergedDefinitionCodeIsEarliest(m: Definition, definitions: seq<Definition>, dims: seq<seq<string>>,
                                       d: string, k: string, i: nat)
    requires IsMergedDefinition(m, definitions, dims)
    requires i < |definitions| && i < |dims| && d in dims[i]
    requires d in definitions[i].codelists && k in definitions[i].codelists[d].mapping.keys
    requires forall j :: 0 <= j < i && j < |dims| && d in dims[j] && d in definitions[j].codelists ==>
      k !in definitions[j].codelists[d].mapping.keys
    ensures d in m.codelists
    ensures k in m.codelists[d].mapping.keys
    ensures m.codelists[d].mapping.entries[k] == definitions[i].codelists[d].mapping.entries[k]
  {
    assert d in m.dimensions;
    assert MergedFor(definitions, dims)(d, m.codelists[d]);
    var cls := CodelistsFor(definitions, dims, d).value;
    var p := CodelistPosition(definitions, dims, d, i);
    forall q | 0 <= q < p ensures k !in cls[q].mapping.keys {
      var j :| 0 <= j < i && j < |definitions| && j < |dims| && d in dims[j] && d in definitions[j].codelists &&
        cls[q] == definitions[j].codelists[d];
    }
    MergedCodeIsEarliest(m.codelists[d], cls, None, k, p);
  }

  // ---------------------------------------------------------------- reading several directories

  /**
   * The `dimensions` argument of `read_multi_definitions`: absent, not a
   * sequence, one list of names for every directory, or one list per directory.
   */
  datatype DimensionsArg = Unset | NotASequence | Names(names: seq<string>) | Lists(lists: seq<seq<string>>)

  /**
   * The dimensions to load from each of `n` directories, `None` leaving the
   * choice to the directory's own config. A `TypeError` for a non-sequence, an
   * `IndexError` for an empty sequence (its first element is inspected), and a
   * `ValueError` for a list of lists whose length is not `n`.
   */
  function DimensionsPerPath(dimensions: DimensionsArg, n: nat): (r: Result<seq<Option<seq<string>>>>)
    ensures r.Success? <==>
      dimensions.Unset? || (dimensions.Names? && dimensions.names != []) ||
      (dimensions.Lists? && dimensions.lists != [] && |dimensions.lists| == n)
    ensures dimensions.NotASequence? ==> r == Failure(TypeError)
    ensures (dimensions.Names? && dimensions.names == []) || (dimensions.Lists? && dimensions.lists == []) ==>
      r == Failure(IndexError)
    ensures dimensions.Lists? && dimensions.lists != [] && |dimensions.lists| != n ==> r == Failure(ValueError)
    ensures r.Success? ==> |r.value| == n
    ensures r.Success? ==> forall i :: 0 <= i < n ==>
      r.value[i] ==
        if dimensions.Names? then Some(dimensions.names)
        else if dimensions.Lists? then Some(dimensions.lists[i])
        else None
  {
    match dimensions
    case Unset => Success(seq(n, _ => None))
    case NotASequence => Failure(TypeError)
    case Names(names) =>
      if names == [] then Failure(IndexError) else Success(seq(n, _ => Some(names)))
    case Lists(lists) =>
      if lists == [] then Failure(IndexError)
      else if |lists| != n then Failure(ValueError)
      else Success(seq(n, i requires 0 <= i < n => Some(lists[i])))
  }

  /**
   * `[load(p, a) for p, a in zip(paths, args)]`: one object read from each
   * directory with its own argument, as `_load_single_path_definitions` and
   * `_load_single_path_regionmaps` are called, the reading itself a parameter.
   */
  function LoadAll<A, T>(paths: seq<string>, args: seq<A>, load: (string, A) -> T): (r: seq<T>)
    requires |args| == |paths|
    ensures |r| == |paths|
    ensures forall i :: 0 <= i < |paths| ==> r[i] == load(paths[i], args[i])
  {
    seq(|paths|, i requires 0 <= i < |paths| => load(paths[i], args[i]))
  }

  /** What `read_multi_definitions` returns: the merged definition, and the individual ones when asked for. */
  datatype MultiRead = MergedOnly(merged: Definition) | WithIndividual(merged: Definition, individual: seq<Definition>)

  /**
   * `read_multi_definitions(paths, dimensions, return_individual_dsds)`: load
   * every directory and merge the definitions in the order of `paths`, each
   * with the dimensions it declares.
   */
  method ReadMultiDefinitions(paths: seq<string>, dimensions: DimensionsArg, returnIndividual: bool,
                              load: (string, Option<seq<string>>) -> Definition) returns (r: Result<MultiRead>)
    ensures DimensionsPerPath(dimensions, |paths|).Failure? ==> r == Failure(DimensionsPerPath(dimensions, |paths|).error)
    ensures DimensionsPerPath(dimensions, |paths|).Success? ==>
      var definitions := LoadAll(paths, DimensionsPerPath(dimensions, |paths|).value, load);
      (r.Success? <==> MergeSucceeds(definitions, OwnDimensions(definitions))) &&
      (r.Success? ==> IsMergedDefinition(r.value.merged, definitions, OwnDimensions(definitions))) &&
      (r.Success? ==> (r.value.WithIndividual? <==> returnIndividual)) &&
      (r.Success? && r.value.WithIndividual? ==> r.value.individual == definitions)
  {
    var dims :- DimensionsPerPath(dimensions, |paths|);
    var definitions := LoadAll(paths, dims, load);
    var merged :- NewMergedDefinition(definitions, None);
    if returnIndividual {
      return Success(WithIndividual(merged, definitions));
    }
    return Success(MergedOnly(merged));
  }

  // ---------------------------------------------------------------- region processors

  /** The region mappings of each processor, in order. */
  function MappingsOf(processors: seq<Processor>): (r: seq<Dict<RegionMapping>>)
    ensures |r| == |processors|
    ensures forall i :: 0 <= i < |processors| ==> r[i] == processors[i].mappings
  {
    seq(|processors|, i requires 0 <= i < |processors| => processors[i].mappings)
  }

  /** `[['region', 'variable']] * n`: the dimensions a merged processor needs from each definition. */
  function RegionAndVariable(n: nat): (r: seq<seq<string>>)
    ensures |r| == n
    ensures forall i :: 0 <= i < n ==> r[i] == ["region", "variable"]
  {
    seq(n, _ => ["region", "variable"])
  }

  /** A merged definition built for a processor has region and variable codelists. */
  lemma RegionAndVariableMerged(m: Definition, definitions: seq<Definition>)
    requires |definitions| > 0
    requires IsMergedDefinition(m, definitions, RegionAndVariable(|definitions|))
    ensures "region" in m.codelists && "variable" in m.codelists
  {
    var dims := RegionAndVariable(|definitions|);
    assert "region" in dims[0] && "variable" in dims[0];
  }

  /**
   * `merge_region_processors(processors, dsds=dsds, merged_dsd=merged_dsd)` as
   * written: the mappings are merged by updating an empty dict with each
   * processor's mappings from the first to the last, so a model mapped by
   * several processors keeps the LAST processor's mapping. The codelists come
   * from `merged_dsd`, or from merging the region and variable dimensions of
   * `dsds`; `used` is the definition they came from.
   */
  method MergeRegionProcessors(processors: seq<Processor>, dsds: Option<seq<Definition>>, mergedDsd: Option<Definition>)
      returns (r: Result<Processor>, ghost used: Definition)
    ensures mergedDsd.None? && dsds.None? ==> r == Failure(ValueError)
    ensures mergedDsd.None? && dsds.Some? ==>
      (r.Success? <==> MergeSucceeds(dsds.value, RegionAndVariable(|dsds.value|)))
    ensures mergedDsd.Some? ==>
      (r.Success? <==> "region" in mergedDsd.value.codelists && "variable" in mergedDsd.value.codelists)
    ensures r.Failure? ==> r.error in {ValueError, AttributeError, IndexError}
    ensures r.Success? ==>
      (if mergedDsd.Some? then used == mergedDsd.value
       else IsMergedDefinition(used, dsds.value, RegionAndVariable(|dsds.value|))) &&
      "region" in used.codelists && "variable" in used.codelists &&
      r.value.regionCodes == used.codelists["region"] && r.value.variableCodes == used.codelists["variable"] &&
      r.value.mappings.entries == LastWins(MappingsOf(processors))
  {
    var dsd: Definition;
    if mergedDsd.Some? {
      dsd := mergedDsd.value;
    } else if dsds.None? {
      return Failure(ValueError), Loaded([], map[], Config(None, Empty(), ""), "", "", None);
    } else {
      var m := NewMergedDefinition(dsds.value, Some(RegionAndVariable(|dsds.value|)));
      if m.Failure? {
        return Failure(m.error), Loaded([], map[], Config(None, Empty(), ""), "", "", None);
      }
      RegionAndVariableMerged(m.value, dsds.value);
      dsd := m.value;
    }
    used := dsd;
    var mappings := UpdateForward(MappingsOf(processors));
    var region := CodelistOf(dsd, "region");
    if region.Failure? {
      return Failure(region.error), used;
    }
    var variable := CodelistOf(dsd, "variable");
    if variable.Failure? {
      return Failure(variable.error), used;
    }
    r := Success(Processor(mappings, region.value, variable.value));
  }

  /**
   * What the as-written merge does with two processors that both map model
   * "m": the later processor's mapping is kept, although the earlier one
   * should take precedence.
   */
  lemma LaterRegionMappingWins()
    ensures var early := RegionMapping(["R5ASIA"]);
      var late := RegionMapping(["R10CHINA+"]);
      var merged := LastWins([Put(Empty(), "m", early), Put(Empty(), "m", late)]);
      "m" in merged && merged["m"] == late && merged["m"] != early
  {
    var early := RegionMapping(["R5ASIA"]);
    var late := RegionMapping(["R10CHINA+"]);
    var ds := [Put(Empty(), "m", early), Put(Empty(), "m", late)];
    LastWinsLatest(ds, 1, "m");
  }

  /**
   * `merge_region_processors` with the precedence its callers document: a
   * model mapped by several processors keeps the FIRST processor's mapping
   * (the dict is updated from the last processor to the first).
   */
  method MergeRegionProcessorsFirstWins(processors: seq<Processor>, dsds: Option<seq<Definition>>, mergedDsd: Option<Definition>)
      returns (r: Result<Processor>, ghost used: Definition)
    ensures mergedDsd.None? && dsds.None? ==> r == Failure(ValueError)
    ensures mergedDsd.None? && dsds.Some? ==>
      (r.Success? <==> MergeSucceeds(dsds.value, RegionAndVariable(|dsds.value|)))
    ensures mergedDsd.Some? ==>
      (r.Success? <==> "region" in mergedDsd.value.codelists && "variable" in mergedDsd.value.codelists)
    ensures r.Failure? ==> r.error in {ValueError, AttributeError, IndexError}
    ensures r.Success? ==>
      (if mergedDsd.Some? then used == mergedDsd.value
       else IsMergedDefinition(used, dsds.value, RegionAndVariable(|dsds.value|))) &&
      "region" in used.codelists && "variable" in used.codelists &&
      r.value.regionCodes == used.codelists["region"] && r.value.variableCodes == used.codelists["variable"] &&
      r.value.mappings.entries == FirstWins(MappingsOf(processors))
  {
    var dsd: Definition;
    if mergedDsd.Some? {
      dsd := mergedDsd.value;
    } else if dsds.None? {
      return Failure(ValueError), Loaded([], map[], Config(None, Empty(), ""), "", "", None);
    } else {
      var m := NewMergedDefinition(dsds.value, Some(RegionAndVariable(|dsds.value|)));
      if m.Failure? {
        return Failure(m.error), Loaded([], map[], Config(None, Empty(), ""), "", "", None);
      }
      RegionAndVariableMerged(m.value, dsds.value);
      dsd := m.value;
    }
    used := dsd;
    var mappings := UpdateReversed(MappingsOf(processors));
    var region := CodelistOf(dsd, "region");
    if region.Failure? {
      return Failure(region.error), used;
    }
    var variable := CodelistOf(dsd, "variable");
    if variable.Failure? {
      return Failure(variable.error), used;
    }
    r := Success(Processor(mappings, region.value, variable.value));
  }

  /** With the corrected merge, a model's mapping comes from the first processor that maps it. */
  lemma MergedMappingIsEarliest(processors: seq<Processor>, i: nat, model: string)
    requires i < |processors| && model in processors[i].mappings.entries
    requires forall j :: 0 <= j < i ==> model !in processors[j].mappings.entries
    ensures model in FirstWins(MappingsOf(processors))
    ensures FirstWins(MappingsOf(processors))[model] == processors[i].mappings.entries[model]
  {
    FirstWinsEarliest(MappingsOf(processors), i, model);
  }

  /** The `dsds` argument of `read_multi_region_processors`: one definition for all, not a sequence, or one per directory. */
  datatype DefinitionsArg = One(dsd: Definition) | NotDefinitions | Many(dsds: seq<Definition>)

  /** The definition for each of `n` directories: a `TypeError` for a non-sequence, a `ValueError` for a length mismatch. */
  function DefinitionsPerPath(dsds: DefinitionsArg, n: nat): (r: Result<seq<Definition>>)
    ensures r.Success? <==> dsds.One? || (dsds.Many? && |dsds.dsds| == n)
    ensures dsds.NotDefinitions? ==> r == Failure(TypeError)
    ensures dsds.Many? && |dsds.dsds| != n ==> r == Failure(ValueError)
    ensures r.Success? ==> |r.value| == n
    ensures r.Success? ==> forall i :: 0 <= i < n ==> r.value[i] == if dsds.One? then dsds.dsd else dsds.dsds[i]
  {
    match dsds
    case One(dsd) => Success(seq(n, _ => dsd))
    case NotDefinitions => Failure(TypeError)
    case Many(ds) => if |ds| != n then Failure(ValueError) else Success(ds)
  }

  /**
   * `read_multi_region_processors(paths, dsds, merged_dsd)` as written: load
   * one processor per directory and merge them in the order of `paths` with
   * `merge_region_processors`, so a model mapped by several directories keeps
   * the LAST directory's mapping. The codelists come from `merged_dsd` when
   * given, else from merging `dsds`; `used` is the definition they came from.
   * The function then merges once more from `dsds`, discarding the result:
   * that second merge can still raise.
   */
  method ReadMultiRegionProcessors(paths: seq<string>, dsds: DefinitionsArg, mergedDsd: Option<Definition>,
                                   load: (string, Definition) -> Processor)
      returns (r: Result<Processor>, ghost used: Definition)
    ensures DefinitionsPerPath(dsds, |paths|).Failure? ==> r == Failure(DefinitionsPerPath(dsds, |paths|).error)
    ensures r.Failure? ==> r.error in {TypeError, ValueError, AttributeError, IndexError}
    ensures DefinitionsPerPath(dsds, |paths|).Success? ==>
      var definitions := DefinitionsPerPath(dsds, |paths|).value;
      var processors := LoadAll(paths, definitions, load);
      (mergedDsd.None? ==> (r.Success? <==> MergeSucceeds(definitions, RegionAndVariable(|definitions|)))) &&
      (mergedDsd.Some? ==> (r.Success? <==>
        MergeSucceeds(definitions, RegionAndVariable(|definitions|)) &&
        "region" in mergedDsd.value.codelists && "variable" in mergedDsd.value.codelists)) &&
      (r.Success? ==> r.value.mappings.entries == LastWins(MappingsOf(processors))) &&
      (r.Success? ==>
        (if mergedDsd.Some? then used == mergedDsd.value
         else IsMergedDefinition(used, definitions, RegionAndVariable(|definitions|))) &&
        "region" in used.codelists && "variable" in used.codelists &&
        r.value.regionCodes == used.codelists["region"] && r.value.variableCodes == used.codelists["variable"])
  {
    var definitions := DefinitionsPerPath(dsds, |paths|);
    if definitions.Failure? {
      return Failure(definitions.error), Loaded([], map[], Config(None, Empty(), ""), "", "", None);
    }
    var processors := LoadAll(paths, definitions.value, load);
    var joined;
    joined, used := MergeRegionProcessors(processors, if mergedDsd.Some? then None else Some(definitions.value), mergedDsd);
    if joined.Failure? {
      return joined, used;
    }
    var again, _ := MergeRegionProcessors(processors, Some(definitions.value), None);
    if again.Failure? {
      return Failure(again.error), used;
    }
    return joined, used;
  }

  /**
   * `read_multi_region_processors` with the precedence its documentation
   * gives: the same steps with the corrected merge, so a model mapped by
   * several directories keeps the FIRST directory's mapping.
   */
  method ReadMultiRegionProcessorsFirstWins(paths: seq<string>, dsds: DefinitionsArg, mergedDsd: Option<Definition>,
                                            load: (string, Definition) -> Processor)
      returns (r: Result<Processor>, ghost used: Definition)
    ensures DefinitionsPerPath(dsds, |paths|).Failure? ==> r == Failure(DefinitionsPerPath(dsds, |paths|).error)
    ensures r.Failure? ==> r.error in {TypeError, ValueError, AttributeError, IndexError}
    ensures DefinitionsPerPath(dsds, |paths|).Success? ==>
      var definitions := DefinitionsPerPath(dsds, |paths|).value;
      var processors := LoadAll(paths, definitions, load);
      (mergedDsd.None? ==> (r.Success? <==> MergeSucceeds(definitions, RegionAndVariable(|definitions|)))) &&
      (mergedDsd.Some? ==> (r.Success? <==>
        MergeSucceeds(definitions, RegionAndVariable(|definitions|)) &&
        "region" in mergedDsd.value.codelists && "variable" in mergedDsd.value.codelists)) &&
      (r.Success? ==> r.value.mappings.entries == FirstWins(MappingsOf(processors))) &&
      (r.Success? ==>
        (if mergedDsd.Some? then used == mergedDsd.value
         else IsMergedDefinition(used, definitions, RegionAndVariable(|definitions|))) &&
        "region" in used.codelists && "variable" in used.codelists &&
        r.value.regionCodes == used.codelists["region"] && r.value.variableCodes == used.codelists["variable"])
  {
    var definitions := DefinitionsPerPath(dsds, |paths|);
    if definitions.Failure? {
      return Failure(definitions.error), Loaded([], map[], Config(None, Empty(), ""), "", "", None);
    }
    var processors := LoadAll(paths, definitions.value, load);
    var joined;
    joined, used := MergeRegionProcessorsFirstWins(processors, if mergedDsd.Some? then None else Some(definitions.value), mergedDsd);
    if joined.Failure? {
      return joined, used;
    }
    var again, _ := MergeRegionProcessorsFirstWins(processors, Some(definitions.value), None);
    if again.Failure? {
      return Failure(again.error), used;
    }
    return joined, used;
  }
}
