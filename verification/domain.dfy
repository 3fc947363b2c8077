/**
 * The index of available years and diseases (`analyzeData`,
 * viewer/script.js): one pass over the data rows collects the distinct
 * non-empty year cells and disease cells in first-seen order (a JavaScript
 * `Set`), then years are sorted by numeric value and diseases as strings.
 */
module Domain {
  import opened JsValues
  import opened Sorting

  /** `allRows.slice(1)`: the rows after the header. */
  function DataRows(rows: seq<seq<string>>): (data: seq<seq<string>>)
    ensures |data| == if |rows| > 0 then |rows| - 1 else 0
    ensures forall i :: 0 <= i < |data| ==> data[i] == rows[i + 1]
  {
    if |rows| == 0 then [] else rows[1..]
  }

  /** The `Set` filled by `if (row[idx]) set.add(row[idx])`, in insertion order. */
  function DistinctCells(rows: seq<seq<string>>, idx: int): seq<string>
    decreases |rows|
  {
    if rows == [] then []
    else
      var prev := DistinctCells(rows[..|rows| - 1], idx);
      var c := Cell(rows[|rows| - 1], idx);
      if Truthy(c) && c.value !in prev then prev + [c.value] else prev
  }

  /** The set holds each non-empty cell of the column once, and nothing else. */
  lemma {:induction false} DistinctCellsFacts(rows: seq<seq<string>>, idx: int)
    ensures NoDups(DistinctCells(rows, idx))
    ensures forall s :: s in DistinctCells(rows, idx) <==>
              s != "" && exists i :: 0 <= i < |rows| && Cell(rows[i], idx) == Some(s)
    decreases |rows|
  {
    if rows != [] {
      var init := rows[..|rows| - 1];
      DistinctCellsFacts(init, idx);
      forall s ensures s in DistinctCells(rows, idx) <==>
                         s != "" && exists i :: 0 <= i < |rows| && Cell(rows[i], idx) == Some(s)
      {
        if s != "" && exists i :: 0 <= i < |rows| && Cell(rows[i], idx) == Some(s) {
          var i :| 0 <= i < |rows| && Cell(rows[i], idx) == Some(s);
          if i < |rows| - 1 {
            assert Cell(init[i], idx) == Some(s);
          }
        }
        if s in DistinctCells(init, idx) {
          var i :| 0 <= i < |init| && Cell(init[i], idx) == Some(s);
          assert Cell(rows[i], idx) == Some(s);
        }
      }
    }
  }

  /** `availableYears`: the distinct year cells, sorted by `Number(a) - Number(b)`. */
  function AvailableYears(rows: seq<seq<string>>, yearIdx: int): (years: seq<string>)
    ensures Sorted(years, YearCellLe)
  {
    YearCellLeIsTotalPreorder();
    SortSorted(DistinctCells(DataRows(rows), yearIdx), YearCellLe);
    Sort(DistinctCells(DataRows(rows), yearIdx), YearCellLe)
  }

  /** `availableDiseases`: the distinct disease cells, sorted as strings. */
  function AvailableDiseases(rows: seq<seq<string>>, diseaseIdx: int): (diseases: seq<string>)
    ensures Sorted(diseases, LexLe)
  {
    LexLeIsTotalOrder();
    SortSorted(DistinctCells(DataRows(rows), diseaseIdx), LexLe);
    Sort(DistinctCells(DataRows(rows), diseaseIdx), LexLe)
  }

  /** The set of one column over the data rows: each non-empty cell below the header, once. */
  lemma DataCellsFacts(rows: seq<seq<string>>, idx: int)
    ensures NoDups(DistinctCells(DataRows(rows), idx))
    ensures forall s :: s in DistinctCells(DataRows(rows), idx) <==>
              s != "" && exists i :: 1 <= i < |rows| && Cell(rows[i], idx) == Some(s)
  {
    var data := DataRows(rows);
    DistinctCellsFacts(data, idx);
    forall s ensures (exists i :: 1 <= i < |rows| && Cell(rows[i], idx) == Some(s)) <==>
                     (exists i :: 0 <= i < |data| && Cell(data[i], idx) == Some(s))
    {
      if exists i :: 1 <= i < |rows| && Cell(rows[i], idx) == Some(s) {
        var i :| 1 <= i < |rows| && Cell(rows[i], idx) == Some(s);
        assert Cell(data[i - 1], idx) == Some(s);
      }
    }
  }

  /**
   * The domain index holds exactly the distinct non-empty year and disease
   * cells of the data rows (row 0, the header, is not scanned); years are in
   * ascending numeric order and diseases in strictly ascending string order,
   * neither with duplicates.
   */
  lemma DomainIndexFacts(rows: seq<seq<string>>, yearIdx: int, diseaseIdx: int)
    ensures forall s :: s in AvailableYears(rows, yearIdx) <==>
              s != "" && exists i :: 1 <= i < |rows| && Cell(rows[i], yearIdx) == Some(s)
    ensures forall s :: s in AvailableDiseases(rows, diseaseIdx) <==>
              s != "" && exists i :: 1 <= i < |rows| && Cell(rows[i], diseaseIdx) == Some(s)
    ensures NoDups(AvailableYears(rows, yearIdx)) && NoDups(AvailableDiseases(rows, diseaseIdx))
    ensures Sorted(AvailableYears(rows, yearIdx), YearCellLe)
    ensures var ds := AvailableDiseases(rows, diseaseIdx);
            forall i, j :: 0 <= i < j < |ds| ==> LexLe(ds[i], ds[j]) && !LexLe(ds[j], ds[i])
  {
    var years := DistinctCells(DataRows(rows), yearIdx);
    var diseases := DistinctCells(DataRows(rows), diseaseIdx);
    DataCellsFacts(rows, yearIdx);
    DataCellsFacts(rows, diseaseIdx);
    SortMembers(years, YearCellLe);
    SortMembers(diseases, LexLe);
    SortNoDups(years, YearCellLe);
    SortNoDups(diseases, LexLe);
    YearCellLeIsTotalPreorder();
    SortSorted(years, YearCellLe);
    LexLeIsTotalOrder();
    SortSorted(diseases, LexLe);
    StrictlyAscending(AvailableDiseases(rows, diseaseIdx), LexLe);
  }

  /**
   * The `forEach` over the data rows of `analyzeData`, filling both sets in
   * one pass, followed by the two sorts.
   */
  method IndexDomain(rows: seq<seq<string>>, yearIdx: int, diseaseIdx: int)
    returns (years: seq<string>, diseases: seq<string>)
    ensures years == AvailableYears(rows, yearIdx)
    ensures diseases == AvailableDiseases(rows, diseaseIdx)
  {
    var data := DataRows(rows);
    var yearSet: seq<string> := [];
    var diseaseSet: seq<string> := [];
    for i := 0 to |data|
      invariant yearSet == DistinctCells(data[..i], yearIdx)
      invariant diseaseSet == DistinctCells(data[..i], diseaseIdx)
    {
      assert data[..i + 1][..i] == data[..i];
      var y := Cell(data[i], yearIdx);
      if Truthy(y) && y.value !in yearSet {
        yearSet := yearSet + [y.value];
      }
      var d := Cell(data[i], diseaseIdx);
      if Truthy(d) && d.value !in diseaseSet {
        diseaseSet := diseaseSet + [d.value];
      }
    }
    assert data[..|data|] == data;
    years := Sort(yearSet, YearCellLe);
    diseases := Sort(diseaseSet, LexLe);
  }
}
