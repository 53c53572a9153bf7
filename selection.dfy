/**
 * The record the per-year breakdown shows: the mortality record of the
 * selected year, or an all-zero record for that year when there is none
 * (as before the data has loaded).
 */
module Selection {
  import opened Wrappers
  import opened CsvRow
  import opened Text
  import opened JsNumber
  import opened YearIndex
  import opened Mortality

  /** Position `i` holds the first record of the selected year. */
  ghost predicate IsFirstOf(data: seq<MortalityRecord>, selected: string, i: nat)
    requires i < |data|
  {
    data[i].year == selected && forall j :: 0 <= j < i ==> data[j].year != selected
  }

  /** `data.find((d) => d.year === selected)`: the first record of the selected year. */
  function Find(data: seq<MortalityRecord>, selected: string): (r: Option<MortalityRecord>)
    ensures r.None? <==> forall i :: 0 <= i < |data| ==> data[i].year != selected
    ensures forall i :: 0 <= i < |data| && IsFirstOf(data, selected, i) ==> r == Some(data[i])
  {
    if data == [] then None
    else if data[0].year == selected then Some(data[0])
    else
      var r := Find(data[1..], selected);
      assert forall i :: 1 <= i < |data| ==> data[1..][i - 1] == data[i];
      r
  }

  /** `yearData`: the found record, or `{ year: selected }` with every rate at zero. */
  function YearData(data: seq<MortalityRecord>, selected: string): (r: MortalityRecord)
    ensures r.year == selected
    ensures (forall i :: 0 <= i < |data| ==> data[i].year != selected) ==>
      forall m :: r.Get(m) == 0.0
    ensures forall i :: 0 <= i < |data| && IsFirstOf(data, selected, i) ==> r == data[i]
  {
    match Find(data, selected)
    case Some(d) =>
      assert exists i :: 0 <= i < |data| && data[i].year == selected;
      FirstOccurrence(data, selected);
      d
    case None => MortalityRecord(selected, 0.0, 0.0, 0.0, 0.0)
  }

  lemma FirstOccurrence(data: seq<MortalityRecord>, selected: string)
    requires exists i :: 0 <= i < |data| && data[i].year == selected
    ensures exists i :: 0 <= i < |data| && IsFirstOf(data, selected, i)
  {
    if data[0].year != selected {
      var i :| 0 <= i < |data| && data[i].year == selected;
      assert data[1..][i - 1].year == selected;
      FirstOccurrence(data[1..], selected);
      var i' :| 0 <= i' < |data[1..]| && IsFirstOf(data[1..], selected, i');
      assert forall j :: 1 <= j < i' + 1 ==> data[j] == data[1..][j - 1];
      assert IsFirstOf(data, selected, i' + 1);
    } else {
      assert IsFirstOf(data, selected, 0);
    }
  }

  /**
   * Over the aggregated series, selecting a year of the index gives that
   * year's record, and selecting any other label gives the zero record.
   */
  lemma {:induction false} SelectAggregated(rows: seq<Row>, parse: string -> Number, selected: string)
    ensures selected in Years ==> YearData(Aggregate(rows, parse), selected) == Aggregate(rows, parse)[IndexOf(Years, selected)]
    ensures selected !in Years ==> forall m :: YearData(Aggregate(rows, parse), selected).Get(m) == 0.0
  {
    var data := Aggregate(rows, parse);
    if selected in Years {
      var i := IndexOf(Years, selected);
      YearsAreConsecutive();
      assert IsFirstOf(data, selected, i);
    } else {
      assert forall i :: 0 <= i < |data| ==> data[i].year == Years[i];
      assert forall i :: 0 <= i < |data| ==> Years[i] in Years;
    }
  }
}
