/**
 * Validation of the names and units in a data frame against a data structure
 * definition, and of model-native region names against a region processor.
 * Where the Python functions fall back on the cached defaults (`dsd=None`,
 * `region_processor=None`), the model takes the definition and the processor
 * as arguments; the cache itself is modelled in `DefaultDefinitions`.
 */
module Validation {
  import opened Results
  import opened Seqs
  import opened Strings
  import opened Dicts
  import opened Frames
  import opened Definitions

  // ---------------------------------------------------------------- units

  /** `code.unit`: a code without a `unit` attribute raises `AttributeError`. */
  function UnitAttribute(code: Code): (r: Result<Value>)
    ensures r.Success? <==> "unit" in code.keys
    ensures r.Success? ==> r.value == code.entries["unit"]
  {
    if "unit" in code.entries then Success(code.entries["unit"]) else Failure(AttributeError)
  }

  /** Python's `unit == expected_unit` for a reported unit and an expected attribute value. */
  predicate SameUnit(unit: Unit, expected: Value) {
    match unit
    case Single(u) => expected == Text(u)
    case Multi(us) => expected == TextList(us)
  }

  /**
   * `pyam.utils.to_list(expected_unit)`, as far as membership goes: `None`
   * becomes `[None]`, which holds no unit name.
   */
  function ExpectedNames(expected: Value): (r: seq<string>)
    ensures expected.Null? ==> r == []
    ensures expected.Text? ==> r == [expected.text]
    ensures expected.TextList? ==> r == expected.items
  {
    match expected
    case Null => []
    case Text(t) => [t]
    case TextList(ts) => ts
  }

  /**
   * `_validate_unit(code, unit)`: `None` for a valid unit, the unit itself for
   * an invalid single unit, and the invalid members of a unit list. Comparing a
   * single unit with a missing (`None`) expected unit raises `TypeError`.
   */
  function ValidateUnit(code: Code, unit: Unit): (r: Result<Option<Unit>>)
    ensures "unit" !in code.keys ==> r == Failure(AttributeError)
    ensures "unit" in code.keys && SameUnit(unit, code.entries["unit"]) ==> r == Success(None)
    ensures "unit" in code.keys && unit.Single? ==>
      var expected := code.entries["unit"];
      (expected.Null? ==> r == Failure(TypeError)) &&
      (!expected.Null? ==> r == Success(if unit.name in ExpectedNames(expected) then None else Some(unit)))
    ensures "unit" in code.keys && unit.Multi? ==>
      var expected := ExpectedNames(code.entries["unit"]);
      r.Success? &&
      (r.value.Some? ==> r.value.value.Multi? && |r.value.value.names| > 0 && IsSubsequence(r.value.value.names, unit.names)) &&
      (forall u :: r.value.Some? && u in r.value.value.names <==> u in unit.names && u !in expected)
  {
    var expected :- UnitAttribute(code);
    if SameUnit(unit, expected) then Success(None)
    else
      match unit
      case Single(u) =>
        (match expected
         case Text(t) => Success(if u != t then Some(unit) else None)
         case TextList(ts) => Success(if u !in ts then Some(unit) else None)
         case Null => Failure(TypeError))
      case Multi(us) =>
        var names := ExpectedNames(expected);
        var isInvalid := u => u !in names;
        FilterIsSubsequence(us, isInvalid);
        var invalid := Filter(us, isInvalid);
        Success(if |invalid| > 0 then Some(Multi(invalid)) else None)
  }

  // ---------------------------------------------------------------- names

  /** The definition's dimensions that the data frame also has, in the definition's order. */
  function DefaultDimensions(dsd: Definition): (r: seq<string>)
    ensures forall d :: d in r <==> d in dsd.dimensions && d in Dimensions
    ensures IsSubsequence(r, dsd.dimensions)
  {
    var isDimension := d => d in Dimensions;
    FilterIsSubsequence(dsd.dimensions, isDimension);
    Filter(dsd.dimensions, isDimension)
  }

  /** The dict comprehension of `get_invalid_names`, over the dimensions `dims`, one at a time. */
  function InvalidNamesFor(ds: Dataset, dsd: Definition, dims: seq<string>): (r: Result<Dict<seq<string>>>)
    ensures r.Success? <==> forall d :: d in dims ==> d in dsd.codelists && d in Dimensions
    ensures r.Failure? ==> r.error == AttributeError
    ensures r.Success? ==> r.value.keys == Distinct(dims)
    ensures r.Success? ==> forall d :: d in r.value.keys <==> d in dims
    ensures r.Success? ==> forall d :: d in r.value.keys ==>
      r.value.entries[d] == InvalidItems(dsd.codelists[d], Column(ds, d).value)
    decreases |dims|
  {
    if dims == [] then Success(Empty())
    else
      var init := dims[..|dims| - 1];
      var d := dims[|dims| - 1];
      assert forall x :: x in dims <==> x in init || x == d;
      var names :- InvalidNamesFor(ds, dsd, init);
      var codelist :- CodelistOf(dsd, d);
      var items :- Column(ds, d);
      Success(Put(names, d, InvalidItems(codelist, items)))
  }

  /**
   * `get_invalid_names(iamdf, dsd, dimensions)`: for each chosen dimension, the
   * names of the data frame that its codelist does not define.
   */
  function GetInvalidNames(ds: Dataset, dsd: Definition, dimensions: Option<seq<string>>): (r: Result<Dict<seq<string>>>)
    ensures var dims := if dimensions.None? then DefaultDimensions(dsd) else dimensions.value;
      (r.Success? <==> forall d :: d in dims ==> d in dsd.codelists && d in Dimensions) &&
      (r.Failure? ==> r.error == AttributeError) &&
      (r.Success? ==> r.value.keys == Distinct(dims)) &&
      (r.Success? ==> forall d :: d in r.value.keys <==> d in dims)
    ensures r.Success? ==> forall d :: d in r.value.keys ==>
      r.value.entries[d] == InvalidItems(dsd.codelists[d], Column(ds, d).value)
  {
    var dims := if dimensions.None? then DefaultDimensions(dsd) else dimensions.value;
    InvalidNamesFor(ds, dsd, dims)
  }

  /** With the default dimensions, every dimension that both the definition and the data frame have is checked. */
  lemma DefaultDimensionsAlwaysValid(ds: Dataset, dsd: Definition)
    requires forall d :: d in dsd.dimensions ==> d in dsd.codelists
    ensures GetInvalidNames(ds, dsd, None).Success?
    ensures forall d :: d in GetInvalidNames(ds, dsd, None).value.keys <==> d in dsd.dimensions && d in Dimensions
  {
  }

  // ---------------------------------------------------------------- model-native regions

  /** The models of the processor, in its order, that declare `region` as a native region. */
  function NativeModels(processor: Processor, region: string): (r: seq<string>)
    ensures forall m :: m in r <==>
      m in processor.mappings.keys && region in processor.mappings.entries[m].nativeRegions
  {
    var mappings := processor.mappings;
    Filter(mappings.keys, m => m in mappings.entries && region in mappings.entries[m].nativeRegions)
  }

  /** `[m for m in models if m not in excluded]` */
  function WithoutModels(models: seq<string>, excluded: seq<string>): (r: seq<string>)
    ensures forall m :: m in r <==> m in models && m !in excluded
  {
    Filter(models, m => m !in excluded)
  }

  /** The models the data uses with `region`, sorted, for which `region` is not a native region. */
  function NonNativeModels(ds: Dataset, processor: Processor, region: string): (r: seq<string>)
    ensures forall m :: m in r <==>
      (exists row :: row in ds && row.region == region && row.model == m) && m !in NativeModels(processor, region)
  {
    WithoutModels(Models(InRegions(ds, [region])), NativeModels(processor, region))
  }

  /** The result of `get_invalid_model_regions`: the invalid combinations, and the valid native ones if asked for. */
  datatype ModelRegions =
    | InvalidOnly(invalid: Dict<seq<string>>)
    | InvalidAndValid(invalid: Dict<seq<string>>, valid: Dict<seq<string>>)

  /** The region names that fail as common regions, or the error `get_invalid_names(...)['region']` raises. */
  function InvalidCommonRegions(ds: Dataset, dsd: Definition): (r: Result<seq<string>>)
    ensures r.Success? ==> "region" in dsd.codelists
    ensures r.Success? ==> forall x :: x in r.value <==>
      (exists row :: row in ds && row.region == x) && x !in dsd.codelists["region"].mapping.keys
  {
    var names :- GetInvalidNames(ds, dsd, None);
    if "region" in names.entries then
      var invalid := names.entries["region"];
      assert invalid == InvalidItems(dsd.codelists["region"], Regions(ds));
      Success(invalid)
    else Failure(KeyError)
  }

  /** The regions of the data frame that are not common regions: the only ones examined. */
  predicate Examined(ds: Dataset, invalidCommon: seq<string>, region: string) {
    region in invalidCommon && exists row :: row in ds && row.region == region
  }

  /** `d` maps each of the first `n` regions with a non-empty `f(region)` to it, and holds nothing else. */
  ghost predicate Records(d: Dict<seq<string>>, f: string -> seq<string>, regions: seq<string>, n: nat)
    requires n <= |regions|
  {
    (forall reg :: reg in d.keys <==> reg in regions[..n] && f(reg) != []) &&
    (forall reg :: reg in d.keys ==> d.entries[reg] == f(reg))
  }

  predicate IncreasingKeys<V>(d: Dict<V>) {
    forall i, j :: 0 <= i < j < |d.keys| ==> Below(d.keys[i], d.keys[j])
  }

  /** Recording one more region keeps `Records`. */
  lemma RecordNext(d: Dict<seq<string>>, f: string -> seq<string>, regions: seq<string>, n: nat)
    requires n < |regions| && Records(d, f, regions, n)
    ensures Records(if f(regions[n]) != [] then Put(d, regions[n], f(regions[n])) else d, f, regions, n + 1)
  {
    assert regions[..n + 1] == regions[..n] + [regions[n]];
  }

  /** Once every region is recorded, `d` maps exactly the regions with a non-empty `f(region)`. */
  lemma RecordsComplete(d: Dict<seq<string>>, f: string -> seq<string>, regions: seq<string>)
    requires Records(d, f, regions, |regions|)
    ensures forall reg :: reg in d.keys <==> reg in regions && f(reg) != []
    ensures forall reg :: reg in d.keys ==> d.entries[reg] == f(reg)
  {
    assert regions[..|regions|] == regions;
  }

  /** In an increasing sequence, everything before position `n` is below the element at `n`. */
  lemma BelowLater(regions: seq<string>, n: nat)
    requires n < |regions|
    requires forall i, j :: 0 <= i < j < |regions| ==> Below(regions[i], regions[j])
    ensures forall reg :: reg in regions[..n] ==> Below(reg, regions[n])
  {
    forall reg | reg in regions[..n] ensures Below(reg, regions[n]) {
      var a :| 0 <= a < n && regions[a] == reg;
    }
  }

  /** Adding a key above all present ones keeps the keys increasing. */
  lemma PutAbove<V>(d: Dict<V>, k: string, v: V)
    requires IncreasingKeys(d)
    requires forall key :: key in d.keys ==> Below(key, k)
    ensures IncreasingKeys(Put(d, k, v))
  {
    BelowIrreflexive(k);
  }

  /**
   * `get_invalid_model_regions(iamdf, dsd, region_processor, return_valid_native_combos)`.
   * Each region of the data frame that is not a common region maps, in the
   * first dict, to the models using it for which it is not native, and in the
   * second, to every model of the processor that declares it native, whether
   * or not the data frame uses it with that model.
   */
  method GetInvalidModelRegions(ds: Dataset, dsd: Definition, processor: Processor, returnValidNativeCombos: Option<bool>)
    returns (r: Result<ModelRegions>)
    ensures r.Success? <==> InvalidCommonRegions(ds, dsd).Success?
    ensures r.Success? ==> (r.value.InvalidAndValid? <==> returnValidNativeCombos == Some(true))
    ensures r.Success? ==> var common := InvalidCommonRegions(ds, dsd).value;
      (forall reg :: reg in r.value.invalid.keys <==> Examined(ds, common, reg) && NonNativeModels(ds, processor, reg) != []) &&
      (forall reg :: reg in r.value.invalid.keys ==> r.value.invalid.entries[reg] == NonNativeModels(ds, processor, reg))
    ensures r.Success? && r.value.InvalidAndValid? ==> var common := InvalidCommonRegions(ds, dsd).value;
      (forall reg :: reg in r.value.valid.keys <==> Examined(ds, common, reg) && NativeModels(processor, reg) != []) &&
      (forall reg :: reg in r.value.valid.keys ==> r.value.valid.entries[reg] == NativeModels(processor, reg))
    ensures r.Success? ==> IncreasingKeys(r.value.invalid)
    ensures r.Success? && r.value.InvalidAndValid? ==> IncreasingKeys(r.value.valid)
    ensures InvalidCommonRegions(ds, dsd).Failure? ==> r == Failure(InvalidCommonRegions(ds, dsd).error)
  {
    var flag := if returnValidNativeCombos.None? then false else returnValidNativeCombos.value;
    var common :- InvalidCommonRegions(ds, dsd);
    var invalid, valid := CollectCombinations(ds, common, processor);
    if flag {
      return Success(InvalidAndValid(invalid, valid));
    }
    return Success(InvalidOnly(invalid));
  }

  /**
   * The loop of `get_invalid_model_regions` over the examined regions, in
   * sorted order: the non-native models of each region go into `invalid`,
   * the models declaring it native into `valid`, where there are any.
   */
  method CollectCombinations(ds: Dataset, common: seq<string>, processor: Processor)
    returns (invalid: Dict<seq<string>>, valid: Dict<seq<string>>)
    ensures forall reg :: reg in invalid.keys <==> Examined(ds, common, reg) && NonNativeModels(ds, processor, reg) != []
    ensures forall reg :: reg in invalid.keys ==> invalid.entries[reg] == NonNativeModels(ds, processor, reg)
    ensures forall reg :: reg in valid.keys <==> Examined(ds, common, reg) && NativeModels(processor, reg) != []
    ensures forall reg :: reg in valid.keys ==> valid.entries[reg] == NativeModels(processor, reg)
    ensures IncreasingKeys(invalid)
    ensures IncreasingKeys(valid)
  {
    var check := InRegions(ds, common);
    invalid := Empty();
    valid := Empty();
    var regions := Regions(check);
    ghost var nonNative := reg => NonNativeModels(ds, processor, reg);
    ghost var native := reg => NativeModels(processor, reg);
    for i := 0 to |regions|
      invariant Records(invalid, nonNative, regions, i)
      invariant Records(valid, native, regions, i)
      invariant IncreasingKeys(invalid)
      invariant IncreasingKeys(valid)
    {
      var region := regions[i];
      var models := Models(InRegions(check, [region]));
      RegionHasModel(check, region);
      assert |models| > 0;
      var validModels := NativeModels(processor, region);
      var invalidModels := WithoutModels(models, validModels);
      SameModelsUsing(ds, common, region);
      RecordNext(invalid, nonNative, regions, i);
      RecordNext(valid, native, regions, i);
      BelowLater(regions, i);
      if |invalidModels| > 0 {
        PutAbove(invalid, region, invalidModels);
        invalid := Put(invalid, region, invalidModels);
      }
      if |validModels| > 0 {
        PutAbove(valid, region, validModels);
        valid := Put(valid, region, validModels);
      }
    }
    RecordsComplete(invalid, nonNative, regions);
    RecordsComplete(valid, native, regions);
    ExaminedRegions(ds, common);
  }

  /** A region of the data is used by at least one model. */
  lemma RegionHasModel(ds: Dataset, region: string)
    requires region in Regions(ds)
    ensures Models(InRegions(ds, [region])) != []
  {
    var row :| row in ds && row.region == region;
    var rows := InRegions(ds, [region]);
    assert row in rows;
    assert row.model in Models(rows);
  }

  /** Narrowing the data to the examined regions first does not change the models seen with one of them. */
  lemma SameModelsUsing(ds: Dataset, common: seq<string>, region: string)
    requires region in common
    ensures Models(InRegions(InRegions(ds, common), [region])) == Models(InRegions(ds, [region]))
  {
    var a := Models(InRegions(InRegions(ds, common), [region]));
    var b := Models(InRegions(ds, [region]));
    assert Column(InRegions(InRegions(ds, common), [region]), "model").Success?;
    assert Column(InRegions(ds, [region]), "model").Success?;
    StrictlySortedUnique(a, b);
  }

  /** The regions of the narrowed data are exactly the examined regions. */
  lemma ExaminedRegions(ds: Dataset, common: seq<string>)
    ensures forall reg :: reg in Regions(InRegions(ds, common)) <==> Examined(ds, common, reg)
  {
  }

  // ---------------------------------------------------------------- variable units

  /** `codelist[v]`: the code of a variable, or a `KeyError`. */
  function CodeOf(codelist: CodeList, v: string): (r: Result<Code>)
    ensures r.Success? <==> v in codelist.mapping.keys
    ensures r.Success? ==> r.value == codelist.mapping.entries[v]
    ensures r.Failure? ==> r.error == KeyError
  {
    if v in codelist.mapping.entries then Success(codelist.mapping.entries[v]) else Failure(KeyError)
  }

  /** The variables `get_invalid_variable_units` checks: all of them, or only those the codelist defines. */
  function CheckedVariables(codelist: CodeList, dfVars: seq<string>, raiseOnMissingVar: bool): (r: seq<string>)
    ensures raiseOnMissingVar ==> r == dfVars
    ensures forall v :: v in r <==> v in dfVars && (raiseOnMissingVar || v in codelist.mapping.keys)
  {
    if raiseOnMissingVar then dfVars else Filter(dfVars, v => v in codelist.mapping.entries)
  }

  /**
   * `_validate_unit(codelist[v], iamdf.unit_mapping[v])` for one variable: a
   * `KeyError` when the data has no unit for it or the codelist lacks it.
   */
  function Verdict(ds: Dataset, codelist: CodeList, v: string): (r: Result<Option<Unit>>)
    ensures r.Success? ==> v in codelist.mapping.keys && "unit" in codelist.mapping.entries[v].keys
  {
    match UnitMapping(ds, v)
    case None => Failure(KeyError)
    case Some(unit) =>
      var code :- CodeOf(codelist, v);
      ValidateUnit(code, unit)
  }

  /** The two ways the check of one variable goes: a `KeyError`, or the verdict of `_validate_unit`. */
  lemma VerdictCases(ds: Dataset, codelist: CodeList, v: string)
    ensures UnitMapping(ds, v).None? || v !in codelist.mapping.keys ==> Verdict(ds, codelist, v) == Failure(KeyError)
    ensures UnitMapping(ds, v).Some? && v in codelist.mapping.keys ==>
      Verdict(ds, codelist, v) == ValidateUnit(codelist.mapping.entries[v], UnitMapping(ds, v).value)
  {
  }

  /** `[unit_mappings[v] for v in vars]`: the unit of each variable, or a `KeyError` for one the data lacks. */
  function UnitsFor(ds: Dataset, vars: seq<string>): (r: Result<seq<Unit>>)
    ensures r.Success? <==> forall v :: v in vars ==> UnitMapping(ds, v).Some?
    ensures r.Failure? ==> r.error == KeyError
    ensures r.Success? ==> |r.value| == |vars| && forall j :: 0 <= j < |vars| ==> UnitMapping(ds, vars[j]) == Some(r.value[j])
    decreases |vars|
  {
    if vars == [] then Success([])
    else
      assert forall x :: x in vars <==> x == vars[0] || x in vars[1..];
      match UnitMapping(ds, vars[0])
      case None => Failure(KeyError)
      case Some(unit) =>
        var rest :- UnitsFor(ds, vars[1..]);
        Success([unit] + rest)
  }

  /** One row of the returned table: the variable, its invalid unit or units, and its expected unit. */
  datatype UnitIssue = UnitIssue(variable: string, invalid: Unit, expected: Value)

  /** Every variable of `vars` can be validated without an error. */
  predicate AllValidated(ds: Dataset, codelist: CodeList, vars: seq<string>) {
    forall v :: v in vars ==> Verdict(ds, codelist, v).Success?
  }

  /**
   * The check of `vars` stops at `e`: the first variable whose check fails
   * fails with `e`, every one before it validating.
   */
  ghost predicate FailsFirstWith(ds: Dataset, codelist: CodeList, vars: seq<string>, e: Error) {
    exists i :: 0 <= i < |vars| && Verdict(ds, codelist, vars[i]) == Failure(e) &&
      forall j :: 0 <= j < i ==> Verdict(ds, codelist, vars[j]).Success?
  }

  lemma NotAllValidated(ds: Dataset, codelist: CodeList, vars: seq<string>, i: nat)
    requires i < |vars| && Verdict(ds, codelist, vars[i]).Failure?
    ensures !AllValidated(ds, codelist, vars)
  {
    assert vars[i] in vars;
  }

  /** The rows of the table for `vars`, in their order: one per variable with an invalid unit. */
  function Issues(ds: Dataset, codelist: CodeList, vars: seq<string>): (r: seq<UnitIssue>)
    requires AllValidated(ds, codelist, vars)
    ensures |r| <= |vars|
    decreases |vars|
  {
    if vars == [] then []
    else
      var init := vars[..|vars| - 1];
      var v := vars[|vars| - 1];
      assert forall x :: x in init ==> x in vars;
      var verdict := Verdict(ds, codelist, v).value;
      Issues(ds, codelist, init) +
        if verdict.Some? then [UnitIssue(v, verdict.value, codelist.mapping.entries[v].entries["unit"])] else []
  }

  /** The rows for one more variable extend those before it. */
  lemma IssuesNext(ds: Dataset, codelist: CodeList, vars: seq<string>, i: nat)
    requires i < |vars| && AllValidated(ds, codelist, vars[..i + 1])
    ensures AllValidated(ds, codelist, vars[..i])
    ensures var verdict := Verdict(ds, codelist, vars[i]).value;
      Issues(ds, codelist, vars[..i + 1]) == Issues(ds, codelist, vars[..i]) +
        if verdict.Some? then [UnitIssue(vars[i], verdict.value, codelist.mapping.entries[vars[i]].entries["unit"])] else []
  {
    assert vars[..i + 1][..i] == vars[..i];
  }

  /**
   * A row is reported exactly for each checked variable whose unit is invalid,
   * with the invalid part of its unit and the unit its code expects.
   */
  lemma {:induction false} IssuesExact(ds: Dataset, codelist: CodeList, vars: seq<string>, issue: UnitIssue)
    requires AllValidated(ds, codelist, vars)
    ensures issue in Issues(ds, codelist, vars) <==>
      issue.variable in vars &&
      Verdict(ds, codelist, issue.variable).value == Some(issue.invalid) &&
      issue.expected == codelist.mapping.entries[issue.variable].entries["unit"]
    decreases |vars|
  {
    if vars != [] {
      var init, v := vars[..|vars| - 1], vars[|vars| - 1];
      assert vars == init + [v];
      IssuesExact(ds, codelist, init, issue);
      IssueOfLast(ds, codelist, v, issue);
    }
  }

  /** The row a single variable adds, if any, is the one its verdict describes. */
  lemma IssueOfLast(ds: Dataset, codelist: CodeList, v: string, issue: UnitIssue)
    requires Verdict(ds, codelist, v).Success?
    ensures var verdict := Verdict(ds, codelist, v).value;
      issue in (if verdict.Some? then [UnitIssue(v, verdict.value, codelist.mapping.entries[v].entries["unit"])] else []) <==>
        issue.variable == v && verdict == Some(issue.invalid) &&
        issue.expected == codelist.mapping.entries[v].entries["unit"]
  {
  }

  /**
   * `get_invalid_variable_units(iamdf, dsd, raise_on_missing_var, variable_dimname)`:
   * the table of invalid units, `None` when every unit is valid. Without a
   * definition, `getattr(None, variable_dimname)` raises `AttributeError`.
   */
  method GetInvalidVariableUnits(ds: Dataset, dsd: Option<Definition>, raiseOnMissingVar: bool, variableDim: string)
    returns (r: Result<Option<seq<UnitIssue>>>)
    ensures dsd.None? ==> r == Failure(AttributeError)
    ensures dsd.Some? && (variableDim !in dsd.value.codelists || variableDim !in Dimensions) ==> r == Failure(AttributeError)
    ensures dsd.Some? && variableDim in dsd.value.codelists && variableDim in Dimensions ==>
      var codelist := dsd.value.codelists[variableDim];
      var vars := CheckedVariables(codelist, Column(ds, variableDim).value, raiseOnMissingVar);
      (r.Success? <==> AllValidated(ds, codelist, vars)) &&
      (UnitsFor(ds, vars).Failure? ==> r == Failure(KeyError)) &&
      (UnitsFor(ds, vars).Success? && r.Failure? ==> FailsFirstWith(ds, codelist, vars, r.error)) &&
      (r.Success? ==> r.value == if Issues(ds, codelist, vars) == [] then None else Some(Issues(ds, codelist, vars)))
  {
    if dsd.None? {
      return Failure(AttributeError);
    }
    var codelist :- CodelistOf(dsd.value, variableDim);
    var dfVars :- Column(ds, variableDim);
    var checkVars := CheckedVariables(codelist, dfVars, raiseOnMissingVar);
    var checkUnits := UnitsFor(ds, checkVars);
    if checkUnits.Failure? {
      var v :| v in checkVars && UnitMapping(ds, v).None?;
      VerdictCases(ds, codelist, v);
      assert Verdict(ds, codelist, v).Failure?;
      return Failure(KeyError);
    }
    var issues :- CollectIssues(ds, codelist, checkVars, checkUnits.value);
    if issues == [] {
      return Success(None);
    }
    return Success(Some(issues));
  }

  /**
   * The loop of `get_invalid_variable_units` over the checked variables and
   * their units: a row for each variable whose unit is invalid, or the first
   * error the codelist lookup or `_validate_unit` raises.
   */
  method CollectIssues(ds: Dataset, codelist: CodeList, checkVars: seq<string>, units: seq<Unit>)
    returns (r: Result<seq<UnitIssue>>)
    requires |units| == |checkVars|
    requires forall j :: 0 <= j < |checkVars| ==> UnitMapping(ds, checkVars[j]) == Some(units[j])
    ensures r.Success? <==> AllValidated(ds, codelist, checkVars)
    ensures r.Success? ==> r.value == Issues(ds, codelist, checkVars)
    ensures r.Failure? ==> FailsFirstWith(ds, codelist, checkVars, r.error)
  {
    var issues: seq<UnitIssue> := [];
    for i := 0 to |checkVars|
      invariant AllValidated(ds, codelist, checkVars[..i])
      invariant issues == Issues(ds, codelist, checkVars[..i])
    {
      VerdictCases(ds, codelist, checkVars[i]);
      assert forall j :: 0 <= j < i ==> checkVars[j] in checkVars[..i];
      var code := CodeOf(codelist, checkVars[i]);
      if code.Failure? {
        NotAllValidated(ds, codelist, checkVars, i);
        return Failure(code.error);
      }
      var invalid := ValidateUnit(code.value, units[i]);
      if invalid.Failure? {
        NotAllValidated(ds, codelist, checkVars, i);
        return Failure(invalid.error);
      }
      assert AllValidated(ds, codelist, checkVars[..i + 1]);
      IssuesNext(ds, codelist, checkVars, i);
      if invalid.value.Some? {
        issues := issues + [UnitIssue(checkVars[i], invalid.value.value, code.value.entries["unit"])];
      }
    }
    assert checkVars[..|checkVars|] == checkVars;
    return Success(issues);
  }

  /**
   * With `raise_on_missing_var`, a variable of the data that the codelist
   * lacks makes the call fail, and when every variable before it validates,
   * it fails with `KeyError`.
   */
  lemma MissingVariableFails(ds: Dataset, codelist: CodeList, dfVars: seq<string>, i: nat)
    requires i < |dfVars| && dfVars[i] !in codelist.mapping.keys
    ensures !AllValidated(ds, codelist, CheckedVariables(codelist, dfVars, true))
    ensures (forall j :: 0 <= j < i ==> Verdict(ds, codelist, dfVars[j]).Success?) ==>
      forall e :: FailsFirstWith(ds, codelist, CheckedVariables(codelist, dfVars, true), e) <==> e == KeyError
  {
    VerdictCases(ds, codelist, dfVars[i]);
    assert dfVars[i] in dfVars;
    if forall j :: 0 <= j < i ==> Verdict(ds, codelist, dfVars[j]).Success? {
      forall e ensures FailsFirstWith(ds, codelist, dfVars, e) <==> e == KeyError {
        if FailsFirstWith(ds, codelist, dfVars, e) {
          var k :| 0 <= k < |dfVars| && Verdict(ds, codelist, dfVars[k]) == Failure(e) &&
            forall j :: 0 <= j < k ==> Verdict(ds, codelist, dfVars[j]).Success?;
          assert k == i;
        }
        if e == KeyError {
          assert Verdict(ds, codelist, dfVars[i]) == Failure(e);
        }
      }
    }
  }

  /** The variables of the data all have units, so the check of them never stops at the unit lookup. */
  lemma CheckedVariablesHaveUnits(ds: Dataset, codelist: CodeList, raiseOnMissingVar: bool)
    ensures UnitsFor(ds, CheckedVariables(codelist, Variables(ds), raiseOnMissingVar)).Success?
  {
    forall v | v in CheckedVariables(codelist, Variables(ds), raiseOnMissingVar)
      ensures UnitMapping(ds, v).Some?
    {
      DataVariablesHaveUnits(ds, v);
    }
  }

  /** Every variable of the data has a unit, so only the codes can make a checked variable fail. */
  lemma DataVariablesHaveUnits(ds: Dataset, v: string)
    requires v in Variables(ds)
    ensures UnitMapping(ds, v).Some?
  {
    var row :| row in ds && row.variable == v;
    UnitMappingMeaning(ds, v);
  }
}
