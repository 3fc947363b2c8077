/**
 * The header clean-up done after loading (viewer/script.js, `handleCsvText`)
 * and the column checks of `drawChart`: column names are looked up with
 * `header.indexOf(name)`, and each dataset type needs its own columns.
 */
module Schema {
  import opened JsValues

  /** The "dtype" radio: weekly or yearly data. */
  datatype DatasetType = Weekly | Yearly

  /** Column positions as `header.indexOf(name)` gives them; -1 when absent. */
  datatype Columns = Columns(year: int, week: int, disease: int, cases: int)

  /** The header after its first cell lost one leading byte-order mark. */
  function WithoutBom(h: seq<string>): (r: seq<string>)
    ensures |r| == |h|
  {
    if |h| > 0 then h[0 := StripBom(h[0])] else h
  }

  /**
   * The in-place clean-up of row 0: strip a byte-order mark from the first
   * cell, then rename the first `pathogen` column to `disease` when there is
   * no `disease` column.
   */
  function NormalizeHeader(h: seq<string>): (r: seq<string>)
    ensures |r| == |h|
    ensures "disease" in r <==> "disease" in WithoutBom(h) || "pathogen" in WithoutBom(h)
  {
    if |h| == 0 then h
    else
      var h1 := WithoutBom(h);
      var p := IndexOf(h1, "pathogen");
      if p != -1 && IndexOf(h1, "disease") == -1 then
        assert h1[p := "disease"][p] == "disease";
        h1[p := "disease"]
      else h1
  }

  /**
   * Only the first cell can lose a byte-order mark; a `disease` column keeps
   * the header as it is; otherwise the first `pathogen` (and only it) becomes
   * `disease`, so `disease` then resolves to the position that was named
   * `pathogen`; every other cell is unchanged.
   */
  lemma NormalizeHeaderFacts(h: seq<string>)
    ensures |h| > 0 ==> WithoutBom(h)[0] == StripBom(h[0])
    ensures forall i :: 0 < i < |h| ==> WithoutBom(h)[i] == h[i]
    ensures "disease" in WithoutBom(h) || "pathogen" !in WithoutBom(h) ==>
              NormalizeHeader(h) == WithoutBom(h)
    ensures "disease" !in WithoutBom(h) && "pathogen" in WithoutBom(h) ==>
              forall i :: 0 <= i < |h| ==>
                NormalizeHeader(h)[i] ==
                  (if i == IndexOf(WithoutBom(h), "pathogen") then "disease" else WithoutBom(h)[i])
    ensures IndexOf(NormalizeHeader(h), "disease") ==
              (if "disease" in WithoutBom(h) then IndexOf(WithoutBom(h), "disease")
               else IndexOf(WithoutBom(h), "pathogen"))
  {
    var h1 := WithoutBom(h);
    if |h| > 0 && "disease" !in h1 && "pathogen" in h1 {
      var p := IndexOf(h1, "pathogen");
      var r := h1[p := "disease"];
      assert r[p] == "disease";
      assert forall k :: 0 <= k < p ==> r[k] == h1[k] && r[k] != "disease";
    }
  }

  /** A header with both `disease` and `pathogen` keeps both columns apart. */
  lemma BothColumnsStayDistinct(h: seq<string>)
    requires "disease" in WithoutBom(h) && "pathogen" in WithoutBom(h)
    ensures IndexOf(NormalizeHeader(h), "disease") != IndexOf(NormalizeHeader(h), "pathogen")
    ensures IndexOf(NormalizeHeader(h), "pathogen") == IndexOf(WithoutBom(h), "pathogen")
  {
    NormalizeHeaderFacts(h);
  }

  /**
   * Renaming `pathogen` to `disease` gives the header a `disease` column and
   * leaves every other column name present exactly when it was.
   */
  lemma PathogenRenamed(h: seq<string>)
    requires "pathogen" in WithoutBom(h) && "disease" !in WithoutBom(h)
    ensures "disease" in NormalizeHeader(h)
    ensures forall name :: name != "pathogen" && name != "disease" ==>
              (name in NormalizeHeader(h) <==> name in WithoutBom(h))
  {
    var h1 := WithoutBom(h);
    var r := NormalizeHeader(h);
    var p := IndexOf(h1, "pathogen");
    NormalizeHeaderFacts(h);
    assert r[p] == "disease";
    forall name | name != "pathogen" && name != "disease"
      ensures name in r <==> name in h1
    {
      if name in h1 {
        var k :| 0 <= k < |h1| && h1[k] == name;
        assert r[k] == name;
      }
      if name in r {
        var k :| 0 <= k < |r| && r[k] == name;
        assert h1[k] == name;
      }
    }
  }

  /** `header.indexOf(...)` for the four logical columns. */
  function ColumnsOf(header: seq<string>): (c: Columns)
    ensures c.year == IndexOf(header, "year") && c.week == IndexOf(header, "week")
    ensures c.disease == IndexOf(header, "disease") && c.cases == IndexOf(header, "cases")
  {
    Columns(IndexOf(header, "year"), IndexOf(header, "week"), IndexOf(header, "disease"), IndexOf(header, "cases"))
  }

  /** The column names a dataset type needs. */
  function Required(dtype: DatasetType): seq<string> {
    match dtype
    case Weekly => ["year", "week", "disease", "cases"]
    case Yearly => ["year", "disease", "cases"]
  }

  /** The index test of `drawChart`: every needed column resolves (is not -1). */
  predicate Resolves(c: Columns, dtype: DatasetType) {
    match dtype
    case Weekly => c.year != -1 && c.week != -1 && c.disease != -1 && c.cases != -1
    case Yearly => c.year != -1 && c.disease != -1 && c.cases != -1
  }

  /** The index test passes exactly when the header names every needed column. */
  lemma ResolvesIffRequiredPresent(header: seq<string>, dtype: DatasetType)
    ensures Resolves(ColumnsOf(header), dtype) <==>
              forall name :: name in Required(dtype) ==> name in header
  {
    var req := Required(dtype);
    if dtype == Weekly {
      assert req[0] == "year" && req[1] == "week" && req[2] == "disease" && req[3] == "cases";
    } else {
      assert req[0] == "year" && req[1] == "disease" && req[2] == "cases";
    }
  }
}
