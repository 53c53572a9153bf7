/**
 * The morbidity aggregator: each row whose label carries a classification
 * range `J<digits>-J<digits>` writes its cells for the covered years 2015
 * to 2022 under the field named after that range.
 */
module Morbidity {
  import opened Wrappers
  import opened CsvRow
  import opened Text
  import opened JsNumber
  import opened YearIndex
  import opened RangeCode

  /** `RespiratorySubgroup`: a named count; records are created with none. */
  datatype RespiratorySubgroup = RespiratorySubgroup(name: string, value: real)

  /**
   * `MorbidityData`: the fixed fields of one year, and the fields named by
   * classification range (`J00_J06`, ...) as a map, since rows add them by name.
   */
  datatype MorbidityRecord = MorbidityRecord(
    year: string, respiratoryCases: real, cardiovascularCases: real,
    respiratorySubgroups: seq<RespiratorySubgroup>, codes: map<string, real>)

  const LabelColumn := "Subgrupo de Causa"

  /** The range fields every record starts with. */
  const BaselineCodes: seq<string> := [
    "J00_J06", "J09_J18", "J20_J22", "J30_J39", "J40_J47", "J60_J70", "J80_J84", "J85_J86"
  ]

  /** The baseline range fields, each at zero. */
  function BaselineFields(): (f: map<string, real>)
    ensures forall key :: key in f <==> key in BaselineCodes
    ensures forall key :: key in f ==> f[key] == 0.0
  {
    map key | key in BaselineCodes :: 0.0
  }

  /** Record `i` carries the year `Years[i]`, one record per year. */
  ghost predicate Aligned(recs: seq<MorbidityRecord>)
  {
    |recs| == |Years| && forall i :: 0 <= i < |recs| ==> recs[i].year == Years[i]
  }

  /** `YEARS.map(...)`: one record per year, counts at zero, no subgroups, baseline fields at zero. */
  function InitialMorbidity(): (r: seq<MorbidityRecord>)
    ensures Aligned(r)
    ensures forall i :: 0 <= i < |r| ==>
      && r[i].respiratoryCases == 0.0 && r[i].cardiovascularCases == 0.0
      && r[i].respiratorySubgroups == [] && r[i].codes == BaselineFields()
  {
    seq(|Years|, i requires 0 <= i < |Years| => MorbidityRecord(Years[i], 0.0, 0.0, [], BaselineFields()))
  }

  /**
   * The field a row writes: `row["Subgrupo de Causa"]?.match(/(J\d+-J\d+)/)`
   * with the match's `-` replaced by `_`; none when the label is absent or
   * has no range.
   */
  function RowKey(row: Row): Option<string>
  {
    if LabelColumn !in row then None
    else match ExtractRange(row[LabelColumn])
      case None => None
      case Some(code) => Some(KeyOf(code))
  }

  /**
   * `parseFloat(row[year]?.toString().replace(",", ".")) || 0`: the first
   * comma becomes a decimal point; an absent cell parses to NaN.
   */
  function CellNumber(row: Row, year: string, parse: string -> Number): Number
  {
    OrZero(if year in row then parse(ReplaceFirst(row[year], ',', '.')) else NaN)
  }

  /** The effect of one row: in each covered year slot its field is set to its cell. */
  function ApplyRow(recs: seq<MorbidityRecord>, row: Row, parse: string -> Number): seq<MorbidityRecord>
    requires |recs| == |Years|
  {
    match RowKey(row)
    case None => recs
    case Some(key) =>
      seq(|recs|, i requires 0 <= i < |recs| =>
        if CoverageStart <= i
        then recs[i].(codes := recs[i].codes[key := CellNumber(row, Years[i], parse).value])
        else recs[i])
  }

  /** The records after all rows have been processed in order. */
  function Aggregate(rows: seq<Row>, parse: string -> Number): (r: seq<MorbidityRecord>)
    ensures Aligned(r)
  {
    if rows == [] then InitialMorbidity()
    else ApplyRow(Aggregate(rows[..|rows| - 1], parse), rows[|rows| - 1], parse)
  }

  /**
   * Processing one more row changes only covered year slots, and in each
   * of them only the row's field, which is set to the row's coerced cell.
   */
  lemma RowEffect(rows: seq<Row>, row: Row, parse: string -> Number, i: nat)
    requires i < |Years|
    ensures RowKey(row).None? || Years[i] !in CoverageYears ==>
      Aggregate(rows + [row], parse)[i] == Aggregate(rows, parse)[i]
    ensures RowKey(row).Some? && Years[i] in CoverageYears ==>
      Aggregate(rows + [row], parse)[i] == Aggregate(rows, parse)[i].(codes :=
        Aggregate(rows, parse)[i].codes[RowKey(row).value := CellNumber(row, Years[i], parse).value])
  {
    CoverageIsTail();
    assert (rows + [row])[..|rows|] == rows;
  }

  /**
   * The coverage window: a year slot outside 2015 to 2022 keeps its
   * initial record, every baseline field at zero, whatever the input.
   */
  lemma {:induction false} UncoveredYearUntouched(rows: seq<Row>, parse: string -> Number, i: nat)
    requires i < |Years| && Years[i] !in CoverageYears
    ensures Aggregate(rows, parse)[i] == InitialMorbidity()[i]
    ensures Aggregate(rows, parse)[i].codes == BaselineFields()
  {
    if rows != [] {
      var prefix := rows[..|rows| - 1];
      assert rows == prefix + [rows[|rows| - 1]];
      RowEffect(prefix, rows[|rows| - 1], parse, i);
      UncoveredYearUntouched(prefix, parse, i);
    }
  }

  /**
   * A row whose label has no classification range contributes nothing:
   * the result is as if it were not in the input, wherever it stands.
   */
  lemma {:induction false} RangelessRowIgnored(before: seq<Row>, row: Row, after: seq<Row>, parse: string -> Number)
    requires RowKey(row).None?
    ensures Aggregate(before + [row] + after, parse) == Aggregate(before + after, parse)
  {
    if after == [] {
      assert before + [row] + after == before + [row];
      assert (before + [row])[..|before|] == before;
      assert before + after == before;
    } else {
      var rest := after[..|after| - 1];
      RangelessRowIgnored(before, row, rest, parse);
      assert (before + [row] + after)[..|before + [row] + after| - 1] == before + [row] + rest;
      assert (before + after)[..|before + after| - 1] == before + rest;
    }
  }

  /**
   * Last write wins: in a covered year slot, a field holds the coerced cell
   * of the LAST row whose label names it.
   */
  lemma {:induction false} LastWriteWins(rows: seq<Row>, parse: string -> Number, i: nat, key: string, k: nat)
    requires i < |Years| && Years[i] in CoverageYears
    requires k < |rows| && RowKey(rows[k]) == Some(key)
    requires forall k' :: k < k' < |rows| ==> RowKey(rows[k']) != Some(key)
    ensures key in Aggregate(rows, parse)[i].codes
    ensures Aggregate(rows, parse)[i].codes[key] == CellNumber(rows[k], Years[i], parse).value
  {
    var prefix := rows[..|rows| - 1];
    var last := rows[|rows| - 1];
    assert rows == prefix + [last];
    RowEffect(prefix, last, parse, i);
    if k < |rows| - 1 {
      LastWriteWins(prefix, parse, i, key, k);
    }
  }

  /**
   * A field no row names exists only if it is a baseline field, and then
   * it is zero: the aggregator creates no other fields.
   */
  lemma {:induction false} UnnamedFieldIsBaseline(rows: seq<Row>, parse: string -> Number, i: nat, key: string)
    requires i < |Years|
    requires forall k :: 0 <= k < |rows| ==> RowKey(rows[k]) != Some(key)
    ensures key in Aggregate(rows, parse)[i].codes <==> key in BaselineCodes
    ensures key in Aggregate(rows, parse)[i].codes ==> Aggregate(rows, parse)[i].codes[key] == 0.0
  {
    if rows != [] {
      var prefix := rows[..|rows| - 1];
      var last := rows[|rows| - 1];
      assert rows == prefix + [last];
      RowEffect(prefix, last, parse, i);
      UnnamedFieldIsBaseline(prefix, parse, i, key);
    }
  }

  /**
   * The aggregator never writes the case counts or the subgroup list:
   * every record keeps them at their initial zero and empty values.
   */
  lemma {:induction false} FixedFieldsUntouched(rows: seq<Row>, parse: string -> Number, i: nat)
    requires i < |Years|
    ensures Aggregate(rows, parse)[i].respiratoryCases == 0.0
    ensures Aggregate(rows, parse)[i].cardiovascularCases == 0.0
    ensures Aggregate(rows, parse)[i].respiratorySubgroups == []
  {
    if rows != [] {
      var prefix := rows[..|rows| - 1];
      var last := rows[|rows| - 1];
      assert rows == prefix + [last];
      RowEffect(prefix, last, parse, i);
      FixedFieldsUntouched(prefix, parse, i);
    }
  }

  /**
   * The `isNaN` guard never rejects: a row with a range whose cell is
   * absent or does not parse still writes 0 under its field, replacing
   * whatever an earlier row wrote there.
   */
  lemma FailedParseWritesZero(rows: seq<Row>, row: Row, parse: string -> Number, i: nat)
    requires i < |Years| && Years[i] in CoverageYears && RowKey(row).Some?
    requires Years[i] !in row || parse(ReplaceFirst(row[Years[i]], ',', '.')).NaN?
    ensures RowKey(row).value in Aggregate(rows + [row], parse)[i].codes
    ensures Aggregate(rows + [row], parse)[i].codes[RowKey(row).value] == 0.0
  {
    RowEffect(rows, row, parse, i);
  }

  /**
   * A row labelled "J00-J06 INFECCIONES AGUDAS" whose 2018 cell reads
   * "1234,5" sets `J00_J06` to 1234.5 in the 2018 record, whatever rows
   * came before it.
   */
  lemma AcuteInfectionsExample(rows: seq<Row>, row: Row, parse: string -> Number)
    requires parse("1234.5") == Finite(1234.5)
    requires LabelColumn in row && row[LabelColumn] == "J00-J06 INFECCIONES AGUDAS"
    requires "2018" in row && row["2018"] == "1234,5"
    ensures Aggregate(rows + [row], parse)[13].year == "2018"
    ensures "J00_J06" in Aggregate(rows + [row], parse)[13].codes
    ensures Aggregate(rows + [row], parse)[13].codes["J00_J06"] == 1234.5
  {
    ExampleRowKey(row);
    ExampleCell(row, parse);
    CoveredWrite(rows, row, parse, 13, "J00_J06", 1234.5);
  }

  /**
   * A row naming field `key` whose coerced cell for a covered year is `v`
   * leaves `v` under `key` in that year's record.
   */
  lemma CoveredWrite(rows: seq<Row>, row: Row, parse: string -> Number, i: nat, key: string, v: real)
    requires i < |Years| && Years[i] in CoverageYears
    requires RowKey(row) == Some(key) && CellNumber(row, Years[i], parse) == Finite(v)
    ensures Aggregate(rows + [row], parse)[i].year == Years[i]
    ensures key in Aggregate(rows + [row], parse)[i].codes
    ensures Aggregate(rows + [row], parse)[i].codes[key] == v
  {
    RowEffect(rows, row, parse, i);
  }

  lemma ExampleRowKey(row: Row)
    requires LabelColumn in row && row[LabelColumn] == "J00-J06 INFECCIONES AGUDAS"
    ensures RowKey(row) == Some("J00_J06")
  {
    AcuteInfectionsRange();
    AcuteInfectionsKey();
  }

  lemma ExampleCell(row: Row, parse: string -> Number)
    requires parse("1234.5") == Finite(1234.5)
    requires "2018" in row && row["2018"] == "1234,5"
    ensures Years[13] == "2018" && CellNumber(row, Years[13], parse) == Finite(1234.5)
  {
    ReplaceFirstAt("1234,5", ',', '.', 4);
    assert ReplaceFirst("1234,5", ',', '.') == "1234.5";
  }

  /**
   * The `complete` callback of the morbidity parse: start from one baseline
   * record per year, and for every row whose label holds a range, write
   * its cell for each covered year under the range's field name.
   */
  method AggregateMorbidity(rows: seq<Row>, parse: string -> Number) returns (out: array<MorbidityRecord>)
    ensures fresh(out)
    ensures out.Length == |Years| && out[..] == Aggregate(rows, parse)
  {
    var init := InitialMorbidity();
    out := new MorbidityRecord[|Years|](i requires 0 <= i < |Years| => init[i]);
    var r := 0;
    while r < |rows|
      invariant 0 <= r <= |rows| && out.Length == |Years|
      invariant out[..] == Aggregate(rows[..r], parse)
    {
      var row := rows[r];
      var subgroupMatch := if LabelColumn in row then ExtractRange(row[LabelColumn]) else None;
      if subgroupMatch.Some? {
        var code := subgroupMatch.value;
        var propertyName := KeyOf(code);
        WriteCoveredYears(out, row, propertyName, parse);
      }
      assert rows[..r + 1][..r] == rows[..r];
      r := r + 1;
    }
    assert rows[..|rows|] == rows;
  }

  /**
   * The loop over the covered years for one row: each year is looked up in
   * `YEARS`, its cell is coerced, and, since the coerced value is never
   * NaN, always written under `propertyName`.
   */
  method WriteCoveredYears(out: array<MorbidityRecord>, row: Row, propertyName: string, parse: string -> Number)
    requires out.Length == |Years| && RowKey(row) == Some(propertyName)
    modifies out
    ensures out[..] == ApplyRow(old(out[..]), row, parse)
  {
    ghost var before := out[..];
    ghost var after := ApplyRow(before, row, parse);
    CoverageIsTail();
    var c := 0;
    while c < |CoverageYears|
      invariant 0 <= c <= |CoverageYears|
      invariant forall k :: 0 <= k < |Years| ==>
        out[k] == if CoverageStart <= k < CoverageStart + c then after[k] else before[k]
    {
      var year := CoverageYears[c];
      var yearIndex := LookupYear(year);
      if yearIndex != -1 {
        var value := CellNumber(row, year, parse);
        if !value.NaN? {
          out[yearIndex] := out[yearIndex].(codes := out[yearIndex].codes[propertyName := value.value]);
        }
      }
      c := c + 1;
    }
  }
}
