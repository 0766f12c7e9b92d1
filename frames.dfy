/**
 * The part of a pyam `IamDataFrame` the modelled code looks at: its rows, the
 * sorted name lists of its dimensions, row selection and the unit mapping.
 * Years and values are not part of the model.
 */
module Frames {
  import opened Results
  import opened Seqs
  import opened Strings

  datatype Row = Row(model: string, scenario: string, region: string, variable: string, unit: string)

  type Dataset = seq<Row>

  /** The index dimensions of a data frame (the time dimension is not modelled). */
  const Dimensions: seq<string> := ["model", "scenario", "region", "variable", "unit"]

  /** The value of one index dimension in a row. */
  function Field(row: Row, dim: string): (r: Option<string>)
    ensures r.Some? <==> dim in Dimensions
  {
    match dim
    case "model" => Some(row.model)
    case "scenario" => Some(row.scenario)
    case "region" => Some(row.region)
    case "variable" => Some(row.variable)
    case "unit" => Some(row.unit)
    case _ => None
  }

  /** All values of a dimension, row by row. */
  function Values(ds: Dataset, dim: string): (r: seq<string>)
    requires dim in Dimensions
    ensures |r| == |ds|
    ensures forall i :: 0 <= i < |ds| ==> Field(ds[i], dim) == Some(r[i])
  {
    if ds == [] then [] else [Field(ds[0], dim).value] + Values(ds[1..], dim)
  }

  /**
   * `getattr(iamdf, dim)`: the sorted names used in a dimension, or an
   * `AttributeError` for a name that is not a dimension.
   */
  function Column(ds: Dataset, dim: string): (r: Result<seq<string>>)
    ensures r.Success? <==> dim in Dimensions
    ensures r.Success? ==> NoDuplicates(r.value)
    ensures r.Success? ==> forall i, j :: 0 <= i < j < |r.value| ==> Below(r.value[i], r.value[j])
    ensures r.Success? ==> forall x :: x in r.value <==> exists row :: row in ds && Field(row, dim) == Some(x)
  {
    if dim !in Dimensions then Failure(AttributeError)
    else
      var vs := Values(ds, dim);
      forall x | x in vs ensures exists row :: row in ds && Field(row, dim) == Some(x) {
        var i :| 0 <= i < |vs| && vs[i] == x;
        assert ds[i] in ds;
      }
      forall x, row | row in ds && Field(row, dim) == Some(x) ensures x in vs {
        var i :| 0 <= i < |ds| && ds[i] == row;
        assert vs[i] == x;
      }
      Success(SortedUnique(vs))
  }

  /** `iamdf.region`, `iamdf.model`: the dimensions every data frame has. */
  function Regions(ds: Dataset): (r: seq<string>)
    ensures NoDuplicates(r)
    ensures forall i, j :: 0 <= i < j < |r| ==> Below(r[i], r[j])
    ensures forall x :: x in r <==> exists row :: row in ds && row.region == x
  {
    Column(ds, "region").value
  }

  function Models(ds: Dataset): (r: seq<string>)
    ensures NoDuplicates(r)
    ensures forall x :: x in r <==> exists row :: row in ds && row.model == x
  {
    Column(ds, "model").value
  }

  function Variables(ds: Dataset): (r: seq<string>)
    ensures NoDuplicates(r)
    ensures forall x :: x in r <==> exists row :: row in ds && row.variable == x
  {
    Column(ds, "variable").value
  }

  /** `iamdf.filter(region=regions)`: the rows whose region is one of `regions`, in order. */
  function InRegions(ds: Dataset, regions: seq<string>): (r: Dataset)
    ensures forall row :: row in r <==> row in ds && row.region in regions
  {
    Filter(ds, (row: Row) => row.region in regions)
  }

  /** The unit of every row of `variable`, row by row. */
  function RowUnits(ds: Dataset, variable: string): (r: seq<string>)
    ensures forall u :: u in r <==> exists row :: row in ds && row.variable == variable && row.unit == u
  {
    if ds == [] then []
    else
      var rest := RowUnits(ds[1..], variable);
      assert forall row :: row in ds <==> row == ds[0] || row in ds[1..];
      if ds[0].variable == variable then [ds[0].unit] + rest else rest
  }

  /** The units used with `variable`, each once, in order of first use. */
  function UnitsOf(ds: Dataset, variable: string): (r: seq<string>)
    ensures NoDuplicates(r)
    ensures forall u :: u in r <==> exists row :: row in ds && row.variable == variable && row.unit == u
  {
    Distinct(RowUnits(ds, variable))
  }

  /** A unit as pyam reports it: one name, or a list of names for a variable used with several units. */
  datatype Unit = Single(name: string) | Multi(names: seq<string>)

  /** `iamdf.unit_mapping[variable]`, or `None` where the mapping has no such key. */
  function UnitMapping(ds: Dataset, variable: string): (r: Option<Unit>)
    ensures r.Some? && r.value.Multi? ==> |r.value.names| > 1
  {
    var us := UnitsOf(ds, variable);
    if |us| == 0 then None
    else if |us| == 1 then Some(Single(us[0]))
    else Some(Multi(us))
  }

  /**
   * A variable has an entry exactly when some row uses it; a single unit is the
   * unit of all its rows, and a list holds each unit once.
   */
  lemma UnitMappingMeaning(ds: Dataset, variable: string)
    ensures var r := UnitMapping(ds, variable);
      (r.None? <==> forall row :: row in ds ==> row.variable != variable) &&
      (r.Some? && r.value.Single? ==> forall row :: row in ds && row.variable == variable ==> row.unit == r.value.name) &&
      (r.Some? && r.value.Multi? ==> NoDuplicates(r.value.names)) &&
      (r.Some? && r.value.Multi? ==>
        forall u :: u in r.value.names <==> exists row :: row in ds && row.variable == variable && row.unit == u)
  {
    var us := UnitsOf(ds, variable);
    forall row | row in ds && row.variable == variable ensures row.unit in us {
    }
    assert |us| > 0 ==> us[0] in us;
  }
}
