/**
 * The year index every aggregate series is aligned to, and the narrower
 * window of years the morbidity dataset covers.
 */
module YearIndex {
  import opened Text

  /** `YEARS`: the charted years, 2005 to 2022, in order. */
  const Years: seq<string> := [
    "2005", "2006", "2007", "2008", "2009", "2010", "2011", "2012", "2013",
    "2014", "2015", "2016", "2017", "2018", "2019", "2020", "2021", "2022"
  ]

  /** The years the morbidity aggregator reads, 2015 to 2022. */
  const CoverageYears: seq<string> := [
    "2015", "2016", "2017", "2018", "2019", "2020", "2021", "2022"
  ]

  /** Position of the first covered year in `Years`. */
  const CoverageStart: nat := 10

  /** A year label: exactly four ASCII digits. */
  predicate IsYearLabel(y: string)
  {
    |y| == 4 && forall k :: 0 <= k < 4 ==> IsDigit(y[k])
  }

  /** The value a year label denotes. */
  function YearValue(y: string): (v: nat)
    requires IsYearLabel(y)
    ensures v < 10000
  {
    1000 * Digit(y[0]) + 100 * Digit(y[1]) + 10 * Digit(y[2]) + Digit(y[3])
  }

  function Digit(c: char): (d: nat)
    requires IsDigit(c)
    ensures d < 10
  {
    (c as int) - ('0' as int)
  }

  /**
   * The index holds eighteen year labels, the consecutive years 2005 to
   * 2022 in increasing order, so no label occurs twice.
   */
  lemma YearsAreConsecutive()
    ensures |Years| == 18
    ensures forall i :: 0 <= i < |Years| ==> IsYearLabel(Years[i]) && YearValue(Years[i]) == 2005 + i
    ensures forall i, j :: 0 <= i < j < |Years| ==> Years[i] != Years[j]
  {
    forall i | 0 <= i < |Years|
      ensures IsYearLabel(Years[i]) && YearValue(Years[i]) == 2005 + i
    {
      YearLabelAt(i);
    }
    forall i, j | 0 <= i < j < |Years| ensures Years[i] != Years[j] {
      YearLabelAt(i);
      YearLabelAt(j);
    }
  }

  lemma YearLabelAt(i: nat)
    requires i < |Years|
    ensures IsYearLabel(Years[i]) && YearValue(Years[i]) == 2005 + i
  {
    var y := Years[i];
    assert y[0] == '2' && y[1] == '0';
    if i < 5 {
      assert y[2] == '0' && y[3] as int == '5' as int + i;
    } else if i < 15 {
      assert y[2] == '1' && y[3] as int == '0' as int + (i - 5);
    } else {
      assert y[2] == '2' && y[3] as int == '0' as int + (i - 15);
    }
  }

  /** `YEARS.indexOf(Years[i])` finds `i`: the lookup the aggregators use is exact. */
  lemma YearPosition(i: nat)
    requires i < |Years|
    ensures IndexOf(Years, Years[i]) == i
  {
    YearsAreConsecutive();
    var r := IndexOf(Years, Years[i]);
    assert Years[i] in Years;
  }

  /**
   * `YEARS.indexOf(year)` as the aggregation loops evaluate it: for a
   * label of the index it is the label's own position.
   */
  method LookupYear(year: string) returns (yearIndex: int)
    ensures year !in Years ==> yearIndex == -1
    ensures year in Years ==> 0 <= yearIndex < |Years| && Years[yearIndex] == year
    ensures forall i :: 0 <= i < |Years| && Years[i] == year ==> yearIndex == i
  {
    yearIndex := IndexOf(Years, year);
    forall i | 0 <= i < |Years| && Years[i] == year ensures yearIndex == i {
      YearPosition(i);
    }
  }

  /**
   * The covered years are the last eight entries of the index, so a year
   * slot is covered exactly when its position is at least `CoverageStart`.
   */
  lemma CoverageIsTail()
    ensures CoverageStart + |CoverageYears| == |Years|
    ensures forall c :: 0 <= c < |CoverageYears| ==> CoverageYears[c] == Years[CoverageStart + c]
    ensures forall i :: 0 <= i < |Years| ==> (Years[i] in CoverageYears <==> CoverageStart <= i)
  {
    assert CoverageYears == Years[CoverageStart..];
    YearsAreConsecutive();
    forall i | 0 <= i < |Years| ensures Years[i] in CoverageYears <==> CoverageStart <= i {
      if Years[i] in CoverageYears {
        var c :| 0 <= c < |CoverageYears| && CoverageYears[c] == Years[i];
        assert Years[CoverageStart + c] == Years[i];
      }
    }
  }

  /** The lookup `YEARS.indexOf(year)` for each covered year lands in the tail. */
  lemma CoveragePosition(c: nat)
    requires c < |CoverageYears|
    ensures IndexOf(Years, CoverageYears[c]) == CoverageStart + c
  {
    CoverageIsTail();
    YearPosition(CoverageStart + c);
  }
}
