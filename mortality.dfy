/**
 * The mortality aggregator: cause-of-death rows are matched against four
 * (cause group, cause subgroup, sex) filters, and a matching row writes its
 * per-year cells into one metric of the year-aligned records.
 */
module Mortality {
  import opened Wrappers
  import opened CsvRow
  import opened JsNumber
  import opened YearIndex

  /** The four metrics of a mortality record. */
  datatype Metric = Respiratory | Cardiovascular | Male | Female

  /** `MortalityData`: the four rates charted for one year. */
  datatype MortalityRecord = MortalityRecord(
    year: string, respiratory: real, cardiovascular: real, male: real, female: real)
  {
    function Get(m: Metric): real
    {
      match m
      case Respiratory => respiratory
      case Cardiovascular => cardiovascular
      case Male => male
      case Female => female
    }

    /** The record with metric `m` replaced by `v`; the year and the other metrics are kept. */
    function Set(m: Metric, v: real): (r: MortalityRecord)
      ensures r.year == year && r.Get(m) == v
      ensures forall m' :: m' != m ==> r.Get(m') == Get(m')
    {
      match m
      case Respiratory => this.(respiratory := v)
      case Cardiovascular => this.(cardiovascular := v)
      case Male => this.(male := v)
      case Female => this.(female := v)
    }
  }

  const IdColumn := "ID"
  const GroupColumn := "GRUPO_CAUSA667"
  const SubgroupColumn := "SUBGRUPO_CAUSA667"
  const SexColumn := "SEXO"

  const CommunicableGroup := "100 - ENFERMEDADES TRANSMISIBLES"
  const AcuteRespiratorySubgroup := "108 - INFECCIONES RESPIRATORIAS AGUDAS"
  const CirculatoryGroup := "300 - ENFERMEDADES SISTEMA CIRCULATORIO"
  const IschemicSubgroup := "303 - ENFERMEDADES ISQU\U{C9}MICAS DEL CORAZ\U{D3}N"

  /** `!row.ID` is false: the identifier is present and not the empty string. */
  predicate HasId(row: Row)
  {
    IdColumn in row && row[IdColumn] != ""
  }

  /** The metric the filters of the aggregation loop route a row to, following its branches. */
  function Target(row: Row): Option<Metric>
  {
    if FieldIs(row, GroupColumn, CommunicableGroup) && FieldIs(row, SubgroupColumn, AcuteRespiratorySubgroup) then
      if FieldIs(row, SexColumn, "MASCULINO") then Some(Male)
      else if FieldIs(row, SexColumn, "FEMENINO") then Some(Female)
      else if FieldIs(row, SexColumn, "TOTAL") then Some(Respiratory)
      else None
    else if FieldIs(row, GroupColumn, CirculatoryGroup) && FieldIs(row, SubgroupColumn, IschemicSubgroup)
      && FieldIs(row, SexColumn, "TOTAL") then Some(Cardiovascular)
    else None
  }

  /** One entry of the decision table the filters amount to. */
  datatype Filter = Filter(group: string, subgroup: string, sex: string, metric: Metric)

  const Filters: seq<Filter> := [
    Filter(CommunicableGroup, AcuteRespiratorySubgroup, "MASCULINO", Male),
    Filter(CommunicableGroup, AcuteRespiratorySubgroup, "FEMENINO", Female),
    Filter(CommunicableGroup, AcuteRespiratorySubgroup, "TOTAL", Respiratory),
    Filter(CirculatoryGroup, IschemicSubgroup, "TOTAL", Cardiovascular)
  ]

  predicate Matches(row: Row, f: Filter)
  {
    FieldIs(row, GroupColumn, f.group) && FieldIs(row, SubgroupColumn, f.subgroup) && FieldIs(row, SexColumn, f.sex)
  }

  /** The metric of the first table entry the row matches. */
  function FirstMatch(row: Row, fs: seq<Filter>): (r: Option<Metric>)
    ensures r.None? <==> forall k :: 0 <= k < |fs| ==> !Matches(row, fs[k])
    ensures r.Some? ==> exists k :: 0 <= k < |fs| && Matches(row, fs[k]) && fs[k].metric == r.value
                                 && forall j :: 0 <= j < k ==> !Matches(row, fs[j])
  {
    if fs == [] then None
    else if Matches(row, fs[0]) then Some(fs[0].metric)
    else
      var r := FirstMatch(row, fs[1..]);
      assert forall k :: 1 <= k < |fs| ==> fs[1..][k - 1] == fs[k];
      if r.Some? then
        var k :| 0 <= k < |fs| - 1 && Matches(row, fs[1..][k]) && fs[1..][k].metric == r.value
                 && forall j :: 0 <= j < k ==> !Matches(row, fs[1..][j]);
        assert Matches(row, fs[k + 1]) && fs[k + 1].metric == r.value;
        assert forall j :: 0 <= j < k + 1 ==> !Matches(row, fs[j]);
        r
      else r
  }

  /**
   * The branches of the aggregation loop are the decision table read top
   * to bottom: a row is routed to at most one metric, the one of the first
   * filter it matches, and to none when it matches no filter.
   */
  lemma TargetIsDecisionTable(row: Row)
    ensures Target(row) == FirstMatch(row, Filters)
  {
    var f := Filters;
    assert FirstMatch(row, f[3..]) == if Matches(row, f[3]) then Some(Cardiovascular) else None by {
      assert f[3..][1..] == [];
    }
    assert FirstMatch(row, f[2..]) == if Matches(row, f[2]) then Some(Respiratory) else FirstMatch(row, f[3..]) by {
      assert f[2..][1..] == f[3..];
    }
    assert FirstMatch(row, f[1..]) == if Matches(row, f[1]) then Some(Female) else FirstMatch(row, f[2..]) by {
      assert f[1..][1..] == f[2..];
    }
  }

  /**
   * Each metric is written by exactly one combination of group, subgroup
   * and sex; in particular only ischaemic-heart rows with sex TOTAL reach
   * `cardiovascular`.
   */
  lemma TargetCases(row: Row)
    ensures Target(row) == Some(Male) <==>
      FieldIs(row, GroupColumn, CommunicableGroup) && FieldIs(row, SubgroupColumn, AcuteRespiratorySubgroup)
      && FieldIs(row, SexColumn, "MASCULINO")
    ensures Target(row) == Some(Female) <==>
      FieldIs(row, GroupColumn, CommunicableGroup) && FieldIs(row, SubgroupColumn, AcuteRespiratorySubgroup)
      && FieldIs(row, SexColumn, "FEMENINO")
    ensures Target(row) == Some(Respiratory) <==>
      FieldIs(row, GroupColumn, CommunicableGroup) && FieldIs(row, SubgroupColumn, AcuteRespiratorySubgroup)
      && FieldIs(row, SexColumn, "TOTAL")
    ensures Target(row) == Some(Cardiovascular) <==>
      FieldIs(row, GroupColumn, CirculatoryGroup) && FieldIs(row, SubgroupColumn, IschemicSubgroup)
      && FieldIs(row, SexColumn, "TOTAL")
  {
  }

  /** `parseFloat(row[year]) || 0`; an absent cell is `undefined`, which parses to NaN. */
  function Cell(row: Row, year: string, parse: string -> Number): real
  {
    OrZero(if year in row then parse(row[year]) else NaN).value
  }

  /** The row writes metric `m`: it has an identifier and the filters route it to `m`. */
  predicate Writes(row: Row, m: Metric)
  {
    HasId(row) && Target(row) == Some(m)
  }

  /** Record `i` carries the year `Years[i]`, one record per year. */
  ghost predicate Aligned(recs: seq<MortalityRecord>)
  {
    |recs| == |Years| && forall i :: 0 <= i < |recs| ==> recs[i].year == Years[i]
  }

  /** `YEARS.map(...)`: one record per year with every rate at zero. */
  function InitialMortality(): (r: seq<MortalityRecord>)
    ensures Aligned(r)
    ensures forall i, m :: 0 <= i < |r| ==> r[i].Get(m) == 0.0
  {
    seq(|Years|, i requires 0 <= i < |Years| => MortalityRecord(Years[i], 0.0, 0.0, 0.0, 0.0))
  }

  /** The effect of one row on the records: its cells overwrite its metric in every year slot. */
  function ApplyRow(recs: seq<MortalityRecord>, row: Row, parse: string -> Number): seq<MortalityRecord>
    requires |recs| == |Years|
  {
    if !HasId(row) then recs
    else match Target(row)
      case None => recs
      case Some(m) => seq(|recs|, i requires 0 <= i < |recs| => recs[i].Set(m, Cell(row, Years[i], parse)))
  }

  /** Slot `y` after a row with an identifier: the row's metric, if any, is set to its cell. */
  lemma ApplyRowAt(recs: seq<MortalityRecord>, row: Row, parse: string -> Number, y: nat)
    requires |recs| == |Years| && y < |Years| && HasId(row)
    ensures Target(row).None? ==> ApplyRow(recs, row, parse)[y] == recs[y]
    ensures Target(row).Some? ==>
      ApplyRow(recs, row, parse)[y] == recs[y].Set(Target(row).value, Cell(row, Years[y], parse))
  {
  }

  /** The records after all rows have been processed in order. */
  function Aggregate(rows: seq<Row>, parse: string -> Number): (r: seq<MortalityRecord>)
    ensures Aligned(r)
  {
    if rows == [] then InitialMortality()
    else ApplyRow(Aggregate(rows[..|rows| - 1], parse), rows[|rows| - 1], parse)
  }

  /**
   * Processing one more row changes, in every year slot, only the metric
   * the row writes, and sets it to the row's coerced cell for that year
   * (0 for an absent or unparseable cell); the year and every other metric
   * stay as they were.
   */
  lemma RowEffect(rows: seq<Row>, row: Row, parse: string -> Number, i: nat, m: Metric)
    requires i < |Years|
    ensures Aggregate(rows + [row], parse)[i].year == Aggregate(rows, parse)[i].year
    ensures Aggregate(rows + [row], parse)[i].Get(m) ==
      if Writes(row, m) then Cell(row, Years[i], parse) else Aggregate(rows, parse)[i].Get(m)
  {
    assert (rows + [row])[..|rows|] == rows;
  }

  /**
   * A row without an identifier, or one no filter matches, leaves the
   * result exactly as if it were not in the input, wherever it stands.
   */
  lemma {:induction false} InertRowIgnored(before: seq<Row>, row: Row, after: seq<Row>, parse: string -> Number)
    requires !HasId(row) || Target(row).None?
    ensures Aggregate(before + [row] + after, parse) == Aggregate(before + after, parse)
  {
    if after == [] {
      assert before + [row] + after == before + [row];
      assert (before + [row])[..|before|] == before;
      assert before + after == before;
    } else {
      var rest := after[..|after| - 1];
      var last := after[|after| - 1];
      InertRowIgnored(before, row, rest, parse);
      assert (before + [row] + after)[..|before + [row] + after| - 1] == before + [row] + rest;
      assert (before + after)[..|before + after| - 1] == before + rest;
    }
  }

  /**
   * Last write wins: the final value of a metric in a year slot is the
   * coerced cell of the LAST row that writes that metric, whatever earlier
   * rows wrote; values are overwritten, never summed.
   */
  lemma {:induction false} LastWriteWins(rows: seq<Row>, parse: string -> Number, i: nat, m: Metric, k: nat)
    requires i < |Years| && k < |rows| && Writes(rows[k], m)
    requires forall k' :: k < k' < |rows| ==> !Writes(rows[k'], m)
    ensures Aggregate(rows, parse)[i].Get(m) == Cell(rows[k], Years[i], parse)
  {
    var prefix := rows[..|rows| - 1];
    var last := rows[|rows| - 1];
    assert rows == prefix + [last];
    RowEffect(prefix, last, parse, i, m);
    if k < |rows| - 1 {
      LastWriteWins(prefix, parse, i, m, k);
    }
  }

  /** A metric no row writes stays at its initial zero in every year slot. */
  lemma {:induction false} NeverWrittenStaysZero(rows: seq<Row>, parse: string -> Number, i: nat, m: Metric)
    requires i < |Years|
    requires forall k :: 0 <= k < |rows| ==> !Writes(rows[k], m)
    ensures Aggregate(rows, parse)[i].Get(m) == 0.0
  {
    if rows != [] {
      var prefix := rows[..|rows| - 1];
      var last := rows[|rows| - 1];
      assert rows == prefix + [last];
      RowEffect(prefix, last, parse, i, m);
      NeverWrittenStaysZero(prefix, parse, i, m);
    }
  }

  /**
   * A male acute-respiratory-infection row whose 2020 cell reads "12.5"
   * sets the 2020 male rate to 12.5 and leaves the other three rates of
   * that year as the earlier rows left them.
   */
  lemma MaleRespiratoryExample(rows: seq<Row>, row: Row, parse: string -> Number)
    requires parse("12.5") == Finite(12.5)
    requires HasId(row) && FieldIs(row, SexColumn, "MASCULINO") && FieldIs(row, "2020", "12.5")
    requires FieldIs(row, GroupColumn, CommunicableGroup) && FieldIs(row, SubgroupColumn, AcuteRespiratorySubgroup)
    ensures
      var r, p := Aggregate(rows + [row], parse)[15], Aggregate(rows, parse)[15];
      && r.year == "2020" && r.male == 12.5
      && r.female == p.female && r.respiratory == p.respiratory && r.cardiovascular == p.cardiovascular
  {
    assert Target(row) == Some(Male);
    assert Years[15] == "2020";
    RowEffect(rows, row, parse, 15, Male);
    RowEffect(rows, row, parse, 15, Female);
    RowEffect(rows, row, parse, 15, Respiratory);
    RowEffect(rows, row, parse, 15, Cardiovascular);
  }

  /**
   * The `complete` callback of the mortality parse: start from one zero
   * record per year and let every row with an identifier overwrite, in each
   * year slot `YEARS.indexOf(year)`, the metric its filters select.
   */
  method AggregateMortality(rows: seq<Row>, parse: string -> Number) returns (out: array<MortalityRecord>)
    ensures fresh(out)
    ensures out.Length == |Years| && out[..] == Aggregate(rows, parse)
  {
    var init := InitialMortality();
    out := new MortalityRecord[|Years|](i requires 0 <= i < |Years| => init[i]);
    var r := 0;
    while r < |rows|
      invariant 0 <= r <= |rows| && out.Length == |Years|
      invariant out[..] == Aggregate(rows[..r], parse)
    {
      var row := rows[r];
      if HasId(row) {
        ApplyRowInPlace(out, row, parse);
      }
      assert rows[..r + 1][..r] == rows[..r];
      r := r + 1;
    }
    assert rows[..|rows|] == rows;
  }

  /** The body of the row loop for a row with an identifier: the inner loop over `YEARS`. */
  method ApplyRowInPlace(out: array<MortalityRecord>, row: Row, parse: string -> Number)
    requires out.Length == |Years| && HasId(row)
    modifies out
    ensures out[..] == ApplyRow(old(out[..]), row, parse)
  {
    ghost var before := out[..];
    ghost var after := ApplyRow(before, row, parse);
    var y := 0;
    while y < |Years|
      invariant 0 <= y <= |Years|
      invariant forall k :: 0 <= k < y ==> out[k] == after[k]
      invariant forall k :: y <= k < |Years| ==> out[k] == before[k]
    {
      var year := Years[y];
      var yearIndex := LookupYear(year);
      ApplyRowAt(before, row, parse, y);
      if FieldIs(row, GroupColumn, CommunicableGroup) && FieldIs(row, SubgroupColumn, AcuteRespiratorySubgroup) {
        if FieldIs(row, SexColumn, "MASCULINO") {
          out[yearIndex] := out[yearIndex].(male := Cell(row, year, parse));
        }
        if FieldIs(row, SexColumn, "FEMENINO") {
          out[yearIndex] := out[yearIndex].(female := Cell(row, year, parse));
        }
        if FieldIs(row, SexColumn, "TOTAL") {
          out[yearIndex] := out[yearIndex].(respiratory := Cell(row, year, parse));
        }
      } else if FieldIs(row, GroupColumn, CirculatoryGroup) && FieldIs(row, SubgroupColumn, IschemicSubgroup)
        && FieldIs(row, SexColumn, "TOTAL") {
        out[yearIndex] := out[yearIndex].(cardiovascular := Cell(row, year, parse));
      }
      y := y + 1;
    }
  }
}
