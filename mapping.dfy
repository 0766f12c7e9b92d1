/**
 * Region mapping that does not fail on invalid regions: the rows whose
 * region is neither a common region nor native for their model are set aside
 * before the region processor's `apply` sees the data.
 */
module Mapping {
  import opened Results
  import opened Seqs
  import opened Dicts
  import opened Frames
  import opened Definitions
  import opened Validation

  // ---------------------------------------------------------------- pyam selections

  /** A row of `region` used by one of `models`: what `filter(region=region, model=models)` selects. */
  predicate InCombination(region: string, models: seq<string>, row: Row) {
    row.region == region && row.model in models
  }

  function Inside(region: string, models: seq<string>): Row -> bool {
    row => InCombination(region, models, row)
  }

  function Outside(region: string, models: seq<string>): Row -> bool {
    row => !InCombination(region, models, row)
  }

  /** `df.filter(region=region, model=models)` */
  function SelectCombination(ds: Dataset, region: string, models: seq<string>): (r: Dataset)
    ensures forall row :: row in r <==> row in ds && InCombination(region, models, row)
  {
    Filter(ds, Inside(region, models))
  }

  /** `df.filter(region=region, model=models, keep=False)` */
  function DropCombination(ds: Dataset, region: string, models: seq<string>): (r: Dataset)
    ensures forall row :: row in r <==> row in ds && !InCombination(region, models, row)
  {
    Filter(ds, Outside(region, models))
  }

  // ---------------------------------------------------------------- what is removed

  /** A row that one of the combinations of `invalid` listed under `regions` selects. */
  predicate Removed(invalid: Dict<seq<string>>, regions: seq<string>, row: Row) {
    row.region in regions && row.region in invalid.entries && row.model in invalid.entries[row.region]
  }

  function RemovedBy(invalid: Dict<seq<string>>, regions: seq<string>): Row -> bool {
    row => Removed(invalid, regions, row)
  }

  function KeptBy(invalid: Dict<seq<string>>, regions: seq<string>): Row -> bool {
    row => !Removed(invalid, regions, row)
  }

  /** The rows left after dropping the combinations of `invalid` listed under `regions`. */
  function KeptAfter(ds: Dataset, invalid: Dict<seq<string>>, regions: seq<string>): (r: Dataset)
    ensures forall row :: row in r <==> row in ds && !Removed(invalid, regions, row)
  {
    Filter(ds, KeptBy(invalid, regions))
  }

  /** Dropping one more combination from what is left is dropping all of them from the input. */
  lemma DropNext(ds: Dataset, invalid: Dict<seq<string>>, i: nat)
    requires i < |invalid.keys|
    ensures var k := invalid.keys[i];
      DropCombination(KeptAfter(ds, invalid, invalid.keys[..i]), k, invalid.entries[k]) == KeptAfter(ds, invalid, invalid.keys[..i + 1])
  {
    var k := invalid.keys[i];
    assert invalid.keys[..i + 1] == invalid.keys[..i] + [k];
    FilterFilter(ds, KeptBy(invalid, invalid.keys[..i]), Outside(k, invalid.entries[k]), KeptBy(invalid, invalid.keys[..i + 1]));
  }

  /** Once nothing is left, dropping further combinations leaves nothing: the early `break` changes nothing. */
  lemma EmptyStaysEmpty(ds: Dataset, invalid: Dict<seq<string>>, regions: seq<string>, more: seq<string>)
    requires KeptAfter(ds, invalid, regions) == []
    requires forall k :: k in regions ==> k in more
    ensures KeptAfter(ds, invalid, more) == []
  {
    var r := KeptAfter(ds, invalid, more);
    if r != [] {
      HeadIsMember(r);
    }
  }

  // ---------------------------------------------------------------- the specification

  /**
   * A row whose region is not a common region, used by a model for which the
   * region is not native: a combination `get_invalid_model_regions` reports.
   */
  predicate InvalidCombination(ds: Dataset, common: seq<string>, processor: Processor, row: Row) {
    Examined(ds, common, row.region) && row.model in NonNativeModels(ds, processor, row.region)
  }

  function IsInvalid(ds: Dataset, common: seq<string>, processor: Processor): Row -> bool {
    row => InvalidCombination(ds, common, processor, row)
  }

  function IsValid(ds: Dataset, common: seq<string>, processor: Processor): Row -> bool {
    row => !InvalidCombination(ds, common, processor, row)
  }

  /** The rows handed to `apply`: the input without its invalid combinations, in input order. */
  function ValidRows(ds: Dataset, common: seq<string>, processor: Processor): (r: Dataset)
    ensures forall row :: row in r <==> row in ds && !InvalidCombination(ds, common, processor, row)
  {
    Filter(ds, IsValid(ds, common, processor))
  }

  /** The rows set aside. */
  function InvalidRows(ds: Dataset, common: seq<string>, processor: Processor): (r: Dataset)
    ensures forall row :: row in r <==> row in ds && InvalidCombination(ds, common, processor, row)
  {
    Filter(ds, IsInvalid(ds, common, processor))
  }

  /** The kept and the excluded rows are disjoint and together are the input, row for row. */
  lemma Partition(ds: Dataset, common: seq<string>, processor: Processor)
    ensures multiset(ValidRows(ds, common, processor)) + multiset(InvalidRows(ds, common, processor)) == multiset(ds)
    ensures forall row :: !(row in ValidRows(ds, common, processor) && row in InvalidRows(ds, common, processor))
  {
    FilterSplit(ds, IsValid(ds, common, processor), IsInvalid(ds, common, processor));
  }

  /**
   * A row of the data is removed exactly when its region is not a common
   * region and is not native for its model: rows with a common region, and
   * rows with a region native for their model, are always kept.
   */
  lemma RemovedExactly(ds: Dataset, dsd: Definition, processor: Processor, row: Row)
    requires row in ds && InvalidCommonRegions(ds, dsd).Success?
    ensures var common := InvalidCommonRegions(ds, dsd).value;
      row in InvalidRows(ds, common, processor) <==>
        row.region !in dsd.codelists["region"].mapping.keys && row.model !in NativeModels(processor, row.region)
  {
    var common := InvalidCommonRegions(ds, dsd).value;
    assert row.region in common <==> row.region !in dsd.codelists["region"].mapping.keys;
    if row.region in common {
      assert Examined(ds, common, row.region);
    }
  }

  /** What the loop over the invalid combinations leaves is the valid rows. */
  lemma KeptAreValid(ds: Dataset, common: seq<string>, processor: Processor, invalid: Dict<seq<string>>)
    requires forall reg :: reg in invalid.keys <==> Examined(ds, common, reg) && NonNativeModels(ds, processor, reg) != []
    requires forall reg :: reg in invalid.keys ==> invalid.entries[reg] == NonNativeModels(ds, processor, reg)
    ensures KeptAfter(ds, invalid, invalid.keys) == ValidRows(ds, common, processor)
  {
    FilterCongruent(ds, KeptBy(invalid, invalid.keys), IsValid(ds, common, processor));
  }

  /** The rows the invalid combinations select are the invalid rows. */
  lemma RemovedAreInvalid(ds: Dataset, common: seq<string>, processor: Processor, invalid: Dict<seq<string>>)
    requires forall reg :: reg in invalid.keys <==> Examined(ds, common, reg) && NonNativeModels(ds, processor, reg) != []
    requires forall reg :: reg in invalid.keys ==> invalid.entries[reg] == NonNativeModels(ds, processor, reg)
    ensures Filter(ds, RemovedBy(invalid, invalid.keys)) == InvalidRows(ds, common, processor)
    ensures invalid.keys == [] <==> InvalidRows(ds, common, processor) == []
  {
    FilterCongruent(ds, RemovedBy(invalid, invalid.keys), IsInvalid(ds, common, processor));
    if invalid.keys != [] {
      InvalidRowOf(ds, common, processor, invalid.keys[0]);
    }
    var bad := InvalidRows(ds, common, processor);
    if bad != [] {
      assert bad[0] in bad;
    }
  }

  /** A region with non-native models in use has a row the exclusion takes. */
  lemma InvalidRowOf(ds: Dataset, common: seq<string>, processor: Processor, reg: string)
    requires Examined(ds, common, reg) && NonNativeModels(ds, processor, reg) != []
    ensures InvalidRows(ds, common, processor) != []
  {
    var models := NonNativeModels(ds, processor, reg);
    assert models[0] in models;
    var row :| row in ds && row.region == reg && row.model == models[0];
    assert row in InvalidRows(ds, common, processor);
  }

  // ---------------------------------------------------------------- the excluded frame

  /** `[iamdf.filter(region=r, model=invalid[r]) for r in regions]` */
  function Groups(ds: Dataset, invalid: Dict<seq<string>>, regions: seq<string>): (r: seq<Dataset>)
    requires forall k :: k in regions ==> k in invalid.entries
    ensures |r| == |regions|
    decreases |regions|
  {
    if regions == [] then []
    else
      assert regions[0] in regions;
      [SelectCombination(ds, regions[0], invalid.entries[regions[0]])] + Groups(ds, invalid, regions[1..])
  }

  /** Concatenating the groups of distinct regions gives each removed row as often as the input has it. */
  lemma {:induction false} GroupsAreRemoved(ds: Dataset, invalid: Dict<seq<string>>, regions: seq<string>)
    requires forall k :: k in regions ==> k in invalid.entries
    requires NoDuplicates(regions)
    ensures multiset(Flatten(Groups(ds, invalid, regions))) == multiset(Filter(ds, RemovedBy(invalid, regions)))
    decreases |regions|
  {
    if regions == [] {
      FilterMultiset(ds, RemovedBy(invalid, regions));
      assert multiset(Filter(ds, RemovedBy(invalid, regions))) == multiset{};
    } else {
      var k, rest := regions[0], regions[1..];
      assert forall x :: x in rest ==> x in regions;
      GroupsAreRemoved(ds, invalid, rest);
      var groups := Groups(ds, invalid, regions);
      assert groups[1..] == Groups(ds, invalid, rest);
      assert Flatten(groups) == groups[0] + Flatten(groups[1..]);
      assert k !in rest;
      FilterDisjointUnion(ds, Inside(k, invalid.entries[k]), RemovedBy(invalid, rest), RemovedBy(invalid, regions));
    }
  }

  // ---------------------------------------------------------------- map_regions

  /**
   * The loop of `map_regions` that drops the invalid combinations one region
   * at a time, stopping early once nothing is left.
   */
  method DropAll(ds: Dataset, invalid: Dict<seq<string>>) returns (filtered: Dataset)
    ensures filtered == KeptAfter(ds, invalid, invalid.keys)
  {
    filtered := ds;
    FilterAll(ds, KeptBy(invalid, invalid.keys[..0]));
    assert invalid.keys[..|invalid.keys|] == invalid.keys;
    for i := 0 to |invalid.keys|
      invariant filtered == KeptAfter(ds, invalid, invalid.keys[..i])
    {
      var region := invalid.keys[i];
      filtered := DropCombination(filtered, region, invalid.entries[region]);
      DropNext(ds, invalid, i);
      if |filtered| == 0 {
        EmptyStaysEmpty(ds, invalid, invalid.keys[..i + 1], invalid.keys);
        break;
      }
    }
  }

  /** What `map_regions` returns: the processed frame, and the excluded rows if asked for. */
  datatype Mapped = Processed(processed: Dataset) | WithExcluded(processed: Dataset, excluded: Dataset)

  /**
   * `map_regions(iamdf, dsd, region_processor, return_excluded)`, with
   * `region_processor.apply` as the parameter `apply`. Concatenating no
   * excluded frames at all raises `ValueError`.
   */
  method MapRegions(ds: Dataset, dsd: Definition, processor: Processor, apply: Dataset -> Dataset, returnExcluded: Option<bool>)
    returns (r: Result<Mapped>)
    ensures InvalidCommonRegions(ds, dsd).Failure? ==> r == Failure(InvalidCommonRegions(ds, dsd).error)
    ensures InvalidCommonRegions(ds, dsd).Success? ==>
      var common := InvalidCommonRegions(ds, dsd).value;
      (r.Success? <==> returnExcluded != Some(true) || InvalidRows(ds, common, processor) != []) &&
      (r.Failure? ==> r.error == ValueError) &&
      (r.Success? ==> (r.value.WithExcluded? <==> returnExcluded == Some(true))) &&
      (r.Success? ==> r.value.processed == apply(ValidRows(ds, common, processor))) &&
      (r.Success? && r.value.WithExcluded? ==> multiset(r.value.excluded) == multiset(InvalidRows(ds, common, processor)))
  {
    var flag := if returnExcluded.None? then false else returnExcluded.value;
    var combos :- GetInvalidModelRegions(ds, dsd, processor, Some(false));
    var invalid := combos.invalid;
    ghost var common := InvalidCommonRegions(ds, dsd).value;
    var filtered := DropAll(ds, invalid);
    KeptAreValid(ds, common, processor, invalid);
    var processed := apply(filtered);
    if !flag {
      return Success(Processed(processed));
    }
    RemovedAreInvalid(ds, common, processor, invalid);
    var groups := Groups(ds, invalid, invalid.keys);
    if groups == [] {
      return Failure(ValueError);
    }
    GroupsAreRemoved(ds, invalid, invalid.keys);
    return Success(WithExcluded(processed, Flatten(groups)));
  }
}
