/**
 * The page's state and its two entry points (viewer/script.js): loading a
 * CSV text (`handleCsvText`, then `analyzeData`) and the draw button
 * (`drawChart`), which checks the columns the dataset type needs and hands
 * over to one of the four chart builders. The module-level variables
 * `allRows`, `availableYears` and `availableDiseases` are the fields of
 * `Viewer`; what the page's controls hold is passed in as a `Selection`.
 */
module App {
  import opened JsValues
  import opened Csv
  import opened Schema
  import opened Domain
  import opened Pivot
  import opened Sorting

  /** The "mode" radio of weekly data. */
  datatype Mode = ByDiseaseMode | ByYearMode | TandemMode

  /** The chosen diseases (in option order), the single-year select and the multi-year select. */
  datatype Selection = Selection(diseases: seq<string>, yearSingle: string, yearMulti: seq<string>)

  /** What the load reports: no data rows, or the number of data rows read. */
  datatype LoadStatus = NoDataRows | Loaded(dataRows: nat)

  /** `allRows` after `handleCsvText(text)`: the table, its header normalised when there are data rows. */
  function LoadedRows(text: string): (rows: seq<seq<string>>)
    ensures |rows| == |Table(text)|
    ensures forall i :: 1 <= i < |rows| ==> rows[i] == Table(text)[i]
    ensures |rows| > 1 ==> |rows[0]| == |Table(text)[0]|
    ensures |rows| > 1 ==> ("disease" in rows[0] <==>
              "disease" in WithoutBom(Table(text)[0]) || "pathogen" in WithoutBom(Table(text)[0]))
  {
    var t := Table(text);
    if |t| <= 1 then t else t[0 := NormalizeHeader(t[0])]
  }

  /**
   * What `analyzeData` leaves in the domain lists: unchanged when the header
   * lacks a year or disease column, otherwise the index of the data rows.
   */
  function Analyzed(rows: seq<seq<string>>, oldYears: seq<string>, oldDiseases: seq<string>)
    : (r: (seq<string>, seq<string>))
    requires |rows| > 0
    ensures "year" !in rows[0] || "disease" !in rows[0] ==> r == (oldYears, oldDiseases)
    ensures "year" in rows[0] && "disease" in rows[0] ==>
              && Sorted(r.0, YearCellLe) && NoDups(r.0)
              && Sorted(r.1, LexLe) && NoDups(r.1)
              && (forall s :: s in r.0 <==>
                    s != "" && exists i :: 1 <= i < |rows| && Cell(rows[i], IndexOf(rows[0], "year")) == Some(s))
              && (forall s :: s in r.1 <==>
                    s != "" && exists i :: 1 <= i < |rows| && Cell(rows[i], IndexOf(rows[0], "disease")) == Some(s))
  {
    DomainIndexFacts(rows, IndexOf(rows[0], "year"), IndexOf(rows[0], "disease"));
    var yearIdx := IndexOf(rows[0], "year");
    var diseaseIdx := IndexOf(rows[0], "disease");
    if yearIdx == -1 || diseaseIdx == -1 then (oldYears, oldDiseases)
    else (AvailableYears(rows, yearIdx), AvailableDiseases(rows, diseaseIdx))
  }

  /** `drawChart` on the page's state and controls. */
  function Draw(rows: seq<seq<string>>, availableYears: seq<string>, dtype: DatasetType, mode: Mode, sel: Selection): (o: Outcome)
    ensures o == Refused(NotLoaded) <==> rows == []
    ensures dtype == Yearly ==> !o.Cleared?
  {
    if rows == [] then Refused(NotLoaded)
    else
      var cols := ColumnsOf(rows[0]);
      match dtype
      case Weekly =>
        if !Resolves(cols, Weekly) then Refused(MissingWeeklyColumns)
        else
          (match mode
           case ByDiseaseMode => ByDisease(rows, cols, sel.diseases, sel.yearSingle)
           case ByYearMode => ByYear(rows, cols, sel.diseases, sel.yearMulti)
           case TandemMode => Tandem(rows, cols, sel.diseases, sel.yearMulti))
      case Yearly =>
        if !Resolves(cols, Yearly) then Refused(MissingYearlyColumns)
        else YearlyByDisease(rows, cols, availableYears, sel.diseases, sel.yearMulti)
  }

  /**
   * `drawChart` refuses before loading, refuses exactly when the header
   * lacks a column the dataset type needs, and yearly data is never
   * cleared: with its columns present it is refused only when no disease is
   * chosen.
   */
  lemma DrawRefusals(rows: seq<seq<string>>, availableYears: seq<string>, dtype: DatasetType, mode: Mode, sel: Selection)
    ensures Draw(rows, availableYears, dtype, mode, sel) == Refused(NotLoaded) <==> rows == []
    ensures Draw(rows, availableYears, dtype, mode, sel) == Refused(MissingWeeklyColumns) <==>
              rows != [] && dtype == Weekly && exists name :: name in Required(Weekly) && name !in rows[0]
    ensures Draw(rows, availableYears, dtype, mode, sel) == Refused(MissingYearlyColumns) <==>
              rows != [] && dtype == Yearly && exists name :: name in Required(Yearly) && name !in rows[0]
    ensures dtype == Yearly ==> !Draw(rows, availableYears, dtype, mode, sel).Cleared?
    ensures rows != [] && dtype == Yearly && Resolves(ColumnsOf(rows[0]), Yearly) ==>
              (Draw(rows, availableYears, dtype, mode, sel).Refused? <==> sel.diseases == [])
  {
    if rows != [] {
      ResolvesIffRequiredPresent(rows[0], dtype);
    }
  }

  /**
   * A file whose header names `pathogen` instead of `disease` passes the
   * yearly column check once loaded, provided it has `year` and `cases`
   * columns; the weekly check also needs `week`.
   */
  lemma PathogenHeaderResolves(text: string)
    requires |Table(text)| > 1
    requires var h := WithoutBom(Table(text)[0]);
             "pathogen" in h && "disease" !in h && "year" in h && "cases" in h
    ensures Resolves(ColumnsOf(LoadedRows(text)[0]), Yearly)
    ensures Resolves(ColumnsOf(LoadedRows(text)[0]), Weekly) <==> "week" in WithoutBom(Table(text)[0])
  {
    var h := Table(text)[0];
    PathogenRenamed(h);
    ResolvesIffRequiredPresent(LoadedRows(text)[0], Yearly);
    ResolvesIffRequiredPresent(LoadedRows(text)[0], Weekly);
  }

  class Viewer {
    /** Every row of the last CSV read, header first. */
    var allRows: seq<seq<string>>
    /** The distinct years, ascending, of the last file that had year and disease columns. */
    var availableYears: seq<string>
    /** The distinct diseases, sorted, of the last file that had year and disease columns. */
    var availableDiseases: seq<string>

    /** The page before any file: nothing loaded, nothing to choose. */
    constructor()
      ensures allRows == [] && availableYears == [] && availableDiseases == []
    {
      allRows := [];
      availableYears := [];
      availableDiseases := [];
    }

    /** A read or fetch error: `allRows = []`, the domain lists stay. */
    method LoadFailed()
      modifies this
      ensures allRows == []
      ensures availableYears == old(availableYears) && availableDiseases == old(availableDiseases)
    {
      allRows := [];
    }

    /** `analyzeData`: index the years and diseases of the data rows, if the header names both columns. */
    method AnalyzeData()
      requires |allRows| > 0
      modifies this
      ensures allRows == old(allRows)
      ensures (availableYears, availableDiseases) == Analyzed(allRows, old(availableYears), old(availableDiseases))
    {
      var header := allRows[0];
      var yearIdx := IndexOf(header, "year");
      var diseaseIdx := IndexOf(header, "disease");
      if yearIdx == -1 || diseaseIdx == -1 {
        return;
      }
      availableYears, availableDiseases := IndexDomain(allRows, yearIdx, diseaseIdx);
    }

    /**
     * The in-place clean-up of row 0 in `handleCsvText`: strip a byte-order
     * mark from its first cell, then rename `pathogen` to `disease` when the
     * header has no `disease` column. The data rows are not touched.
     */
    method CleanHeader()
      requires |allRows| > 0
      modifies this
      ensures allRows == old(allRows)[0 := NormalizeHeader(old(allRows)[0])]
      ensures availableYears == old(availableYears) && availableDiseases == old(availableDiseases)
    {
      var header := allRows[0];
      if |header| > 0 {
        header := header[0 := StripBom(header[0])];
        var pathogenIdx := IndexOf(header, "pathogen");
        if pathogenIdx != -1 && IndexOf(header, "disease") == -1 {
          header := header[pathogenIdx := "disease"];
        }
      }
      allRows := allRows[0 := header];
    }

    /**
     * The first half of `handleCsvText`: parse into `allRows` and, when there
     * are data rows, clean the header in place; reports whether there are data
     * rows.
     */
    method ReadTable(text: string) returns (hasData: bool)
      modifies this
      ensures allRows == LoadedRows(text)
      ensures hasData <==> |allRows| > 1
      ensures availableYears == old(availableYears) && availableDiseases == old(availableDiseases)
    {
      allRows := ParseCsv(text);
      ghost var t := allRows;
      if |allRows| <= 1 {
        return false;
      }
      CleanHeader();
      assert allRows == t[0 := NormalizeHeader(t[0])];
      return true;
    }

    /**
     * `handleCsvText`: parse; with no data rows stop there; otherwise clean
     * the header in place and index the domain.
     */
    method HandleCsvText(text: string) returns (status: LoadStatus)
      modifies this
      ensures allRows == LoadedRows(text)
      ensures status == (if |allRows| <= 1 then NoDataRows else Loaded(|allRows| - 1))
      ensures status == NoDataRows ==>
                availableYears == old(availableYears) && availableDiseases == old(availableDiseases)
      ensures status.Loaded? ==>
                (availableYears, availableDiseases) == Analyzed(allRows, old(availableYears), old(availableDiseases))
    {
      var hasData := ReadTable(text);
      if !hasData {
        return NoDataRows;
      }
      status := Loaded(|allRows| - 1);
      AnalyzeData();
    }

    /** `drawChart`: the column checks, then the chart builder of the dataset type and mode. */
    method DrawChart(dtype: DatasetType, mode: Mode, sel: Selection) returns (o: Outcome)
      ensures o == Draw(allRows, availableYears, dtype, mode, sel)
    {
      if |allRows| == 0 {
        return Refused(NotLoaded);
      }
      var header := allRows[0];
      var cols := ColumnsOf(header);
      match dtype {
        case Weekly =>
          if cols.year == -1 || cols.week == -1 || cols.disease == -1 || cols.cases == -1 {
            return Refused(MissingWeeklyColumns);
          }
          match mode {
            case ByDiseaseMode => o := DrawByDisease(allRows, cols, sel.diseases, sel.yearSingle);
            case ByYearMode => o := DrawByYear(allRows, cols, sel.diseases, sel.yearMulti);
            case TandemMode => o := DrawTandem(allRows, cols, sel.diseases, sel.yearMulti);
          }
        case Yearly =>
          if cols.year == -1 || cols.disease == -1 || cols.cases == -1 {
            return Refused(MissingYearlyColumns);
          }
          o := YearlyByDisease(allRows, cols, availableYears, sel.diseases, sel.yearMulti);
      }
    }
  }
}
