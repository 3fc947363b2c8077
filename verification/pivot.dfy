/**
 * The four chart builders of viewer/script.js: `drawByDisease`,
 * `drawByYear` and `drawTandemYears` for weekly data and
 * `drawYearlyByDisease` for yearly data. Each is a pure function giving the
 * outcome (a refusal, a cleared chart, or the chart's axis labels and data
 * series) and, where the source accumulates into sets and maps, a method
 * doing the same accumulation, proved to give that outcome.
 */
module Pivot {
  import opened JsValues
  import opened Sorting
  import opened Schema
  import opened Records
  import Domain

  /** An x-axis label: a week or year number, or the `${year}-${week}` label of the tandem chart. */
  datatype Label = At(n: Num) | YearWeek(year: Num, week: int)

  /** What `updateChart(labels, datasets)` receives, without label text and styling. */
  datatype Chart = Chart(labels: seq<Label>, series: seq<seq<Option<Num>>>)

  /** The messages after which a draw function returns without touching the chart. */
  datatype Refusal =
    | NotLoaded
    | MissingWeeklyColumns
    | MissingYearlyColumns
    | NoYearChosen
    | NoDiseaseChosen
    | NoYearsChosen

  /**
   * Refused: a message and no chart update. Cleared: the "no matching data"
   * message and `updateChart([], [])`. Drawn: the chart is replaced.
   */
  datatype Outcome = Refused(reason: Refusal) | Cleared | Drawn(chart: Chart)

  /** The data rows (`allRows.slice(1)`) read through the resolved columns. */
  function DataRecords(rows: seq<seq<string>>, cols: Columns): seq<Record> {
    ToRecords(Domain.DataRows(rows), cols)
  }

  function Axis(ns: seq<Num>): (ls: seq<Label>)
    ensures |ls| == |ns|
    ensures forall i :: 0 <= i < |ns| ==> ls[i] == At(ns[i])
  {
    seq(|ns|, i requires 0 <= i < |ns| => At(ns[i]))
  }

  /** `selectedYears.map(y => Number(y)).sort((a, b) => a - b)`. */
  function SortedYears(sel: seq<string>): (years: seq<Num>)
    ensures |years| == |sel|
    ensures Sorted(years, NumLe)
  {
    NumLeIsTotalOrder();
    SortSorted(Nums(sel), NumLe);
    Sort(Nums(sel), NumLe)
  }

  /** A number is on the axis exactly when it is in the list the axis is drawn from. */
  lemma AxisMembers(ns: seq<Num>)
    ensures forall w :: At(w) in Axis(ns) <==> w in ns
  {
    forall w ensures At(w) in Axis(ns) <==> w in ns {
      if w in ns {
        var m :| 0 <= m < |ns| && ns[m] == w;
        assert Axis(ns)[m] == At(w);
      }
    }
  }

  /** The x axis of `drawByDisease` and `drawByYear`: each week of the kept records once, ascending. */
  lemma WeekLabels(rs: seq<Record>, c: Criterion)
    ensures var ls := Axis(WeekAxis(Filter(rs, c)));
            && (forall w :: At(w) in ls <==> exists i :: 0 <= i < |rs| && Keeps(c, rs[i]) && rs[i].week == w)
            && (forall i, j :: 0 <= i < j < |ls| ==> ls[i].At? && NumLe(ls[i].n, ls[j].n) && ls[i] != ls[j])
  {
    var ws := WeekAxis(Filter(rs, c));
    WeekAxisOfFilter(rs, c);
    WeekAxisFacts(Filter(rs, c));
    AxisMembers(ws);
  }

  /**
   * The chart of `drawByDisease` and `drawByYear` once the records are read:
   * cleared when the filter keeps nothing, otherwise the weeks of the kept
   * records as the x axis and one dataset per key.
   */
  function WeekChart<K(==)>(rs: seq<Record>, c: Criterion, slot: Record -> Option<Entry<K>>, keys: seq<K>): Outcome {
    var kept := Filter(rs, c);
    if kept == [] then Cleared
    else
      var weeks := WeekAxis(kept);
      Drawn(Chart(Axis(weeks), Series(kept, slot, keys, weeks)))
  }

  /**
   * The chart is cleared exactly when the filter keeps no record; otherwise
   * the x axis holds each week of the kept records once, ascending, and
   * there is one dataset per key, as long as the axis.
   */
  lemma WeekChartShape<K>(rs: seq<Record>, c: Criterion, slot: Record -> Option<Entry<K>>, keys: seq<K>)
    ensures WeekChart(rs, c, slot, keys).Cleared? <==> forall i :: 0 <= i < |rs| ==> !Keeps(c, rs[i])
    ensures !WeekChart(rs, c, slot, keys).Refused?
    ensures WeekChart(rs, c, slot, keys).Drawn? ==>
              var ch := WeekChart(rs, c, slot, keys).chart;
              && |ch.series| == |keys|
              && (forall j :: 0 <= j < |keys| ==> |ch.series[j]| == |ch.labels|)
              && (forall w :: At(w) in ch.labels <==>
                    exists i :: 0 <= i < |rs| && Keeps(c, rs[i]) && rs[i].week == w)
              && (forall i, j :: 0 <= i < j < |ch.labels| ==>
                    ch.labels[i].At? && NumLe(ch.labels[i].n, ch.labels[j].n) && ch.labels[i] != ch.labels[j])
  {
    FilterEmpty(rs, c);
    if Filter(rs, c) != [] {
      WeekLabels(rs, c);
    }
  }

  /**
   * Each point of a key's dataset is null at a NaN week and otherwise the
   * cases of the last kept record, in file order, that writes that key and
   * that week (so has numeric week and cases); null if there is none.
   */
  lemma WeekChartPoint<K>(rs: seq<Record>, c: Criterion, slot: Record -> Option<Entry<K>>, keys: seq<K>, j: int, i: int)
    requires WeekChart(rs, c, slot, keys).Drawn?
    requires 0 <= j < |keys|
    requires 0 <= i < |WeekChart(rs, c, slot, keys).chart.labels|
    ensures var ch := WeekChart(rs, c, slot, keys).chart;
            var w := ch.labels[i].n;
            && ch.labels[i].At?
            && (w.NaN? ==> ch.series[j][i] == None)
            && (w.Int? ==>
                  ch.series[j][i] ==
                    if exists m :: 0 <= m < |rs| && Keeps(c, rs[m]) && Writes(slot(rs[m]), keys[j], w.v)
                    then Some(Int(slot(rs[LastKeptWriter(rs, c, slot, keys[j], w.v)]).value.cases))
                    else None)
  {
    var kept := Filter(rs, c);
    var w := WeekAxis(kept)[i];
    if w.Int? {
      LastCasesOfFilter(rs, c, slot, keys[j], w.v);
    }
  }

  // ---------------------------------------------------------------------------
  // drawByDisease

  /** The keys of the disease maps: each chosen disease as a cell value. */
  function DiseaseKeys(diseases: seq<string>): (keys: seq<Option<string>>)
    ensures |keys| == |diseases|
    ensures forall j :: 0 <= j < |diseases| ==> keys[j] == Some(diseases[j])
  {
    seq(|diseases|, j requires 0 <= j < |diseases| => Some(diseases[j]))
  }

  /**
   * `drawByDisease`: one year, one line per selected disease, keyed by the
   * disease cell; a record is kept when its year is `===` the chosen one
   * and its disease is selected.
   */
  function ByDisease(rows: seq<seq<string>>, cols: Columns, diseases: seq<string>, year: string): (o: Outcome)
    ensures o.Refused? <==> year == "" || diseases == []
    ensures o.Drawn? ==> |o.chart.series| == |diseases|
  {
    if year == "" then Refused(NoYearChosen)
    else if diseases == [] then Refused(NoDiseaseChosen)
    else WeekChart(DataRecords(rows, cols), OneYear(ToNum(year), diseases), DiseaseSlot, DiseaseKeys(diseases))
  }

  /** The accumulation of `drawByDisease`: week set, sort, maps, datasets. */
  method DrawByDisease(rows: seq<seq<string>>, cols: Columns, diseases: seq<string>, year: string)
    returns (o: Outcome)
    ensures o == ByDisease(rows, cols, diseases, year)
  {
    if year == "" {
      return Refused(NoYearChosen);
    }
    if diseases == [] {
      return Refused(NoDiseaseChosen);
    }
    var target := ToNum(year);
    var filtered := Filter(DataRecords(rows, cols), OneYear(target, diseases));
    if filtered == [] {
      return Cleared;
    }
    var weekSet := CollectWeeks(filtered);
    var weeks := Sort(weekSet, NumLe);
    var datasets := Datasets(filtered, DiseaseSlot, DiseaseKeys(diseases), weeks);
    o := Drawn(Chart(Axis(weeks), datasets));
  }

  // ---------------------------------------------------------------------------
  // drawByYear

  /**
   * `drawByYear`: the first chosen disease, one line per chosen year, keyed
   * by the year number; a record is kept when its year is one of the chosen
   * ones (`includes`) and its disease is `===` the chosen one.
   */
  function ByYear(rows: seq<seq<string>>, cols: Columns, diseases: seq<string>, yearSel: seq<string>): (o: Outcome)
    ensures o.Refused? <==> diseases == [] || yearSel == []
    ensures o.Drawn? ==> |o.chart.series| == |yearSel|
  {
    if diseases == [] then Refused(NoDiseaseChosen)
    else if yearSel == [] then Refused(NoYearsChosen)
    else
      var years := SortedYears(yearSel);
      WeekChart(DataRecords(rows, cols), OneDisease(years, diseases[0]), YearSlot, years)
  }

  /**
   * The lines of `drawByYear` and the blocks of `drawTandemYears` follow the
   * chosen years in ascending numeric order: one per chosen year, each chosen
   * year's number present, nothing else.
   */
  lemma SortedYearsFacts(yearSel: seq<string>)
    ensures var years := SortedYears(yearSel);
            && |years| == |yearSel|
            && Sorted(years, NumLe)
            && (forall y :: y in years <==> exists i :: 0 <= i < |yearSel| && ToNum(yearSel[i]) == y)
  {
    NumLeIsTotalOrder();
    SortSorted(Nums(yearSel), NumLe);
    SortMembers(Nums(yearSel), NumLe);
  }

  /** The accumulation of `drawByYear`: week set, sort, maps, datasets. */
  method DrawByYear(rows: seq<seq<string>>, cols: Columns, diseases: seq<string>, yearSel: seq<string>)
    returns (o: Outcome)
    ensures o == ByYear(rows, cols, diseases, yearSel)
  {
    if diseases == [] {
      return Refused(NoDiseaseChosen);
    }
    if yearSel == [] {
      return Refused(NoYearsChosen);
    }
    var disease := diseases[0];
    var years := SortedYears(yearSel);
    var filtered := Filter(DataRecords(rows, cols), OneDisease(years, disease));
    if filtered == [] {
      return Cleared;
    }
    var weekSet := CollectWeeks(filtered);
    var weeks := Sort(weekSet, NumLe);
    var datasets := Datasets(filtered, YearSlot, years, weeks);
    o := Drawn(Chart(Axis(weeks), datasets));
  }

  // ---------------------------------------------------------------------------
  // drawTandemYears

  /** One point of the tandem line: its year, its week and its value. */
  datatype Point = Point(year: Num, week: int, value: Option<Num>)

  /** `Array.from(weekSets[y] || []).sort((a, b) => a - b)`. */
  function Block(kept: seq<Record>, y: Num): seq<int> {
    Sort(KeyWeeks(kept, TandemSlot, y), IntLe)
  }

  function BlockPoints(kept: seq<Record>, y: Num): (ps: seq<Point>)
    ensures |ps| == |Block(kept, y)|
    ensures forall i :: 0 <= i < |ps| ==>
              ps[i] == Point(y, Block(kept, y)[i], ValueAt(kept, TandemSlot, y, Int(Block(kept, y)[i])))
  {
    var b := Block(kept, y);
    seq(|b|, i requires 0 <= i < |b| => Point(y, b[i], ValueAt(kept, TandemSlot, y, Int(b[i]))))
  }

  /** The points pushed by `years.forEach(y => weeks.forEach(w => ...))`. */
  function TandemPoints(kept: seq<Record>, years: seq<Num>): seq<Point>
    decreases |years|
  {
    if years == [] then []
    else TandemPoints(kept, years[..|years| - 1]) + BlockPoints(kept, years[|years| - 1])
  }

  function LabelsOf(ps: seq<Point>): (ls: seq<Label>)
    ensures |ls| == |ps|
    ensures forall i :: 0 <= i < |ps| ==> ls[i] == YearWeek(ps[i].year, ps[i].week)
  {
    seq(|ps|, i requires 0 <= i < |ps| => YearWeek(ps[i].year, ps[i].week))
  }

  function ValuesOf(ps: seq<Point>): (vs: seq<Option<Num>>)
    ensures |vs| == |ps|
    ensures forall i :: 0 <= i < |ps| ==> vs[i] == ps[i].value
  {
    seq(|ps|, i requires 0 <= i < |ps| => ps[i].value)
  }

  /** Pushing the next point of a block extends the labels and the data by one. */
  lemma PointsSnoc(before: seq<Point>, block: seq<Point>, i: int)
    requires 0 <= i < |block|
    ensures LabelsOf(before + block[..i + 1]) == LabelsOf(before + block[..i]) + [YearWeek(block[i].year, block[i].week)]
    ensures ValuesOf(before + block[..i + 1]) == ValuesOf(before + block[..i]) + [block[i].value]
  {
    assert before + block[..i + 1] == (before + block[..i]) + [block[i]];
  }

  function TandemChart(rs: seq<Record>, disease: string, years: seq<Num>): Outcome {
    var kept := Filter(rs, OneDisease(years, disease));
    if kept == [] then Cleared
    else
      var ps := TandemPoints(kept, years);
      Drawn(Chart(LabelsOf(ps), [ValuesOf(ps)]))
  }

  /** `drawTandemYears`: the first chosen disease, the chosen years laid end to end as one line. */
  function Tandem(rows: seq<seq<string>>, cols: Columns, diseases: seq<string>, yearSel: seq<string>): (o: Outcome)
    ensures o.Refused? <==> diseases == [] || yearSel == []
    ensures o.Drawn? ==> |o.chart.series| == 1
  {
    if diseases == [] then Refused(NoDiseaseChosen)
    else if yearSel == [] then Refused(NoYearsChosen)
    else TandemChart(DataRecords(rows, cols), diseases[0], SortedYears(yearSel))
  }

  /**
   * `drawByYear` and `drawTandemYears` read only the first chosen disease:
   * the rest of the selection changes nothing.
   */
  lemma FirstDiseaseOnly(rows: seq<seq<string>>, cols: Columns, diseases: seq<string>, yearSel: seq<string>)
    requires diseases != []
    ensures ByYear(rows, cols, diseases, yearSel) == ByYear(rows, cols, [diseases[0]], yearSel)
    ensures Tandem(rows, cols, diseases, yearSel) == Tandem(rows, cols, [diseases[0]], yearSel)
  {
  }

  /** A year's block: one point per week written under that year, with the cases last written there. */
  lemma BlockFacts(kept: seq<Record>, y: Num)
    ensures forall i :: 0 <= i < |BlockPoints(kept, y)| ==>
              var p := BlockPoints(kept, y)[i];
              && p.year == y
              && LastCases(kept, TandemSlot, y, p.week).Some?
              && p.value == Some(Int(LastCases(kept, TandemSlot, y, p.week).value))
    ensures forall w :: LastCases(kept, TandemSlot, y, w).Some? ==>
              exists i :: 0 <= i < |BlockPoints(kept, y)| && BlockPoints(kept, y)[i].week == w
    ensures BlockPoints(kept, y) != [] ==> y.Int?
  {
    KeyWeeksFacts(kept, TandemSlot, y);
    SortMembers(KeyWeeks(kept, TandemSlot, y), IntLe);
    if BlockPoints(kept, y) != [] {
      LastCasesIsLastWrite(kept, TandemSlot, y, BlockPoints(kept, y)[0].week);
    }
    forall w | LastCases(kept, TandemSlot, y, w).Some?
      ensures exists i :: 0 <= i < |BlockPoints(kept, y)| && BlockPoints(kept, y)[i].week == w
    {
      assert w in Block(kept, y);
      var i :| 0 <= i < |Block(kept, y)| && Block(kept, y)[i] == w;
      assert BlockPoints(kept, y)[i].week == w;
    }
  }

  /** The tandem line of some years, then the block of one more year. */
  lemma TandemPointsSnoc(kept: seq<Record>, years: seq<Num>)
    requires years != []
    ensures TandemPoints(kept, years) ==
              TandemPoints(kept, years[..|years| - 1]) + BlockPoints(kept, years[|years| - 1])
  {
  }

  /**
   * A point of the tandem line is sound when it belongs to a chosen year,
   * stands for a week some kept record with numeric year, week and cases
   * writes, and carries the cases of the last such record.
   */
  predicate SoundPoint(kept: seq<Record>, years: seq<Num>, p: Point) {
    && p.year in years
    && p.year.Int?
    && LastCases(kept, TandemSlot, p.year, p.week).Some?
    && p.value == Some(Int(LastCases(kept, TandemSlot, p.year, p.week).value))
  }

  /** Every point of the tandem line is sound. */
  lemma {:induction false} TandemPointsSound(kept: seq<Record>, years: seq<Num>)
    ensures forall p :: p in TandemPoints(kept, years) ==> SoundPoint(kept, years, p)
    decreases |years|
  {
    if years != [] {
      var init := years[..|years| - 1];
      var y := years[|years| - 1];
      TandemPointsSound(kept, init);
      BlockFacts(kept, y);
      TandemPointsSnoc(kept, years);
      forall p | p in BlockPoints(kept, y) ensures SoundPoint(kept, years, p) {
        var i :| 0 <= i < |BlockPoints(kept, y)| && BlockPoints(kept, y)[i] == p;
      }
    }
  }

  /** Every week written under a chosen year has its point on the tandem line. */
  lemma {:induction false} TandemPointsComplete(kept: seq<Record>, years: seq<Num>, y: Num, w: int)
    requires y in years && LastCases(kept, TandemSlot, y, w).Some?
    ensures exists p :: p in TandemPoints(kept, years) && p.year == y && p.week == w
    decreases |years|
  {
    var init := years[..|years| - 1];
    var last := years[|years| - 1];
    TandemPointsSnoc(kept, years);
    if y in init {
      TandemPointsComplete(kept, init, y, w);
    } else {
      assert years == init + [last];
      BlockFacts(kept, last);
      var n :| 0 <= n < |BlockPoints(kept, last)| && BlockPoints(kept, last)[n].week == w;
      assert BlockPoints(kept, last)[n] in TandemPoints(kept, years);
    }
  }

  /** Every point of the tandem line has a value: the line has no gaps. */
  lemma TandemHasNoGaps(rs: seq<Record>, disease: string, years: seq<Num>)
    requires TandemChart(rs, disease, years).Drawn?
    ensures var ch := TandemChart(rs, disease, years).chart;
            |ch.series| == 1 && |ch.series[0]| == |ch.labels| &&
            forall i :: 0 <= i < |ch.series[0]| ==> ch.series[0][i].Some? && ch.series[0][i].value.Int?
  {
    var ps := TandemPoints(Filter(rs, OneDisease(years, disease)), years);
    TandemPointsSound(Filter(rs, OneDisease(years, disease)), years);
    assert forall i :: 0 <= i < |ps| ==> ps[i] in ps;
  }

  /** The tandem labels run by year, then by week: (year, week) strictly ascending. */
  predicate Before(p: Point, q: Point) {
    p.year.Int? && q.year.Int? && (p.year.v < q.year.v || (p.year.v == q.year.v && p.week < q.week))
  }

  predicate Ascending(ps: seq<Point>) {
    forall i, j :: 0 <= i < j < |ps| ==> Before(ps[i], ps[j])
  }

  lemma BlockOrdered(kept: seq<Record>, y: Num)
    ensures Ascending(BlockPoints(kept, y))
  {
    var ws := KeyWeeks(kept, TandemSlot, y);
    KeyWeeksFacts(kept, TandemSlot, y);
    IntLeIsTotalOrder();
    SortSorted(ws, IntLe);
    SortNoDups(ws, IntLe);
    BlockFacts(kept, y);
  }

  /** Two ascending runs, every point of the first before every point of the second, make one. */
  lemma AscendingConcat(ps: seq<Point>, qs: seq<Point>)
    requires Ascending(ps) && Ascending(qs)
    requires forall p, q :: p in ps && q in qs ==> Before(p, q)
    ensures Ascending(ps + qs)
  {
    var r := ps + qs;
    forall i, j | 0 <= i < j < |r| ensures Before(r[i], r[j]) {
      if j < |ps| {
        assert r[i] == ps[i] && r[j] == ps[j];
      } else if i >= |ps| {
        assert r[i] == qs[i - |ps|] && r[j] == qs[j - |ps|];
      } else {
        assert r[i] in ps && r[j] in qs;
      }
    }
  }

  /**
   * When the chosen years are ascending and distinct, the tandem labels are
   * strictly ascending by (year, week): no label repeats.
   */
  lemma {:induction false} TandemOrdered(kept: seq<Record>, years: seq<Num>)
    requires Sorted(years, NumLe) && NoDups(years)
    ensures Ascending(TandemPoints(kept, years))
    decreases |years|
  {
    if years != [] {
      var init := years[..|years| - 1];
      var y := years[|years| - 1];
      var before := TandemPoints(kept, init);
      var block := BlockPoints(kept, y);
      TandemOrdered(kept, init);
      TandemPointsSound(kept, init);
      BlockOrdered(kept, y);
      BlockFacts(kept, y);
      TandemPointsSnoc(kept, years);
      forall p, q | p in before && q in block ensures Before(p, q) {
        assert SoundPoint(kept, init, p);
        var a :| 0 <= a < |init| && init[a] == p.year;
        assert years[a] == p.year;
        var b :| 0 <= b < |block| && block[b] == q;
        assert q.year == y && y.Int?;
        assert NumLe(years[a], y) && years[a] != y;
      }
      AscendingConcat(before, block);
    }
  }

  /**
   * The pushes of `drawTandemYears`: for each year in order, its weeks
   * ascending, one label `${y}-${w}` and one value `maps[y][w]`.
   */
  method LayOutTandem(kept: seq<Record>, years: seq<Num>, maps: map<Num, map<int, int>>, weekSets: map<Num, seq<int>>)
    returns (labels: seq<Label>, data: seq<Option<Num>>)
    requires Tabulates(maps, kept, TandemSlot) && IndexesWeeks(weekSets, kept, TandemSlot)
    ensures labels == LabelsOf(TandemPoints(kept, years))
    ensures data == ValuesOf(TandemPoints(kept, years))
  {
    labels := [];
    data := [];
    for j := 0 to |years|
      invariant labels == LabelsOf(TandemPoints(kept, years[..j]))
      invariant data == ValuesOf(TandemPoints(kept, years[..j]))
    {
      var y := years[j];
      var weeks := Sort(WeeksUnder(weekSets, y), IntLe);
      assert WeeksUnder(weekSets, y) == KeyWeeks(kept, TandemSlot, y);
      ghost var before := TandemPoints(kept, years[..j]);
      ghost var block := BlockPoints(kept, y);
      for i := 0 to |weeks|
        invariant labels == LabelsOf(before + block[..i])
        invariant data == ValuesOf(before + block[..i])
      {
        ReadTabulated(maps, kept, TandemSlot, y, Int(weeks[i]));
        assert block[i] == Point(y, weeks[i], Read(maps, y, Int(weeks[i])));
        PointsSnoc(before, block, i);
        labels := labels + [YearWeek(y, weeks[i])];
        data := data + [Read(maps, y, Int(weeks[i]))];
      }
      assert block[..|weeks|] == block;
      assert years[..j + 1][..j] == years[..j];
    }
    assert years[..|years|] == years;
  }

  /** `drawTandemYears`: the refusals, the filter, one pass filling maps and week sets, then the pushes. */
  method DrawTandem(rows: seq<seq<string>>, cols: Columns, diseases: seq<string>, yearSel: seq<string>)
    returns (o: Outcome)
    ensures o == Tandem(rows, cols, diseases, yearSel)
  {
    if diseases == [] {
      return Refused(NoDiseaseChosen);
    }
    if yearSel == [] {
      return Refused(NoYearsChosen);
    }
    var disease := diseases[0];
    var years := SortedYears(yearSel);
    var filtered := Filter(DataRecords(rows, cols), OneDisease(years, disease));
    if filtered == [] {
      return Cleared;
    }
    var maps, weekSets := TabulateWithWeeks(filtered, TandemSlot, years);
    var labels, data := LayOutTandem(filtered, years, maps, weekSets);
    o := Drawn(Chart(labels, [data]));
  }

  // ---------------------------------------------------------------------------
  // drawYearlyByDisease

  /** `Number(r[yearIdx]) === y && r[diseaseIdx] === d`. */
  predicate Matches(r: Record, y: Num, d: string) {
    StrictEq(r.year, y) && r.disease == Some(d)
  }

  /** The index `find` stops at: the first matching record; -1 when none matches. */
  function FirstMatch(rs: seq<Record>, y: Num, d: string): (n: int)
    ensures -1 <= n < |rs|
    ensures n >= 0 ==> Matches(rs[n], y, d)
    ensures forall m :: 0 <= m < |rs| && (n < 0 || m < n) ==> !Matches(rs[m], y, d)
    decreases |rs|
  {
    if rs == [] then -1
    else if Matches(rs[0], y, d) then 0
    else
      var n := FirstMatch(rs[1..], y, d);
      if n < 0 then -1 else n + 1
  }

  /** `row ? Number(row[casesIdx]) : null`: a found row gives its cases, NaN included. */
  function FirstCases(rs: seq<Record>, y: Num, d: string): Option<Num> {
    var n := FirstMatch(rs, y, d);
    if n < 0 then None else Some(rs[n].cases)
  }

  function YearlyChart(rs: seq<Record>, diseases: seq<string>, years: seq<Num>): Chart {
    Chart(Axis(years),
      seq(|diseases|, j requires 0 <= j < |diseases| =>
        seq(|years|, i requires 0 <= i < |years| => FirstCases(rs, years[i], diseases[j]))))
  }

  /**
   * `drawYearlyByDisease`: one line per chosen disease over the chosen years,
   * or over every available year when none is chosen, ascending.
   */
  function YearlyByDisease(rows: seq<seq<string>>, cols: Columns, availableYears: seq<string>,
                  diseases: seq<string>, yearSel: seq<string>): (o: Outcome)
    ensures o.Refused? <==> diseases == []
    ensures !o.Cleared?
    ensures o.Drawn? ==> |o.chart.series| == |diseases|
  {
    if diseases == [] then Refused(NoDiseaseChosen)
    else Drawn(YearlyChart(DataRecords(rows, cols), diseases, SortedYears(if yearSel == [] then availableYears else yearSel)))
  }

  /**
   * The yearly chart is drawn whenever a disease is chosen, never cleared;
   * its axis is the chosen (or else available) years in ascending order,
   * with one line per chosen disease.
   */
  lemma YearlyFacts(rows: seq<seq<string>>, cols: Columns, availableYears: seq<string>,
                    diseases: seq<string>, yearSel: seq<string>)
    ensures YearlyByDisease(rows, cols, availableYears, diseases, yearSel).Refused? <==> diseases == []
    ensures !YearlyByDisease(rows, cols, availableYears, diseases, yearSel).Cleared?
    ensures diseases != [] ==>
              var ch := YearlyByDisease(rows, cols, availableYears, diseases, yearSel).chart;
              var source := if yearSel == [] then availableYears else yearSel;
              && |ch.labels| == |source|
              && (forall y :: At(y) in ch.labels <==> exists i :: 0 <= i < |source| && ToNum(source[i]) == y)
              && (forall i, j :: 0 <= i < j < |ch.labels| ==> ch.labels[i].At? && NumLe(ch.labels[i].n, ch.labels[j].n))
              && |ch.series| == |diseases|
  {
    if diseases != [] {
      var source := if yearSel == [] then availableYears else yearSel;
      var years := SortedYears(source);
      SortedYearsFacts(source);
      var ch := YearlyByDisease(rows, cols, availableYears, diseases, yearSel).chart;
      assert ch.labels == Axis(years);
      forall y ensures At(y) in ch.labels <==> y in years {
        if At(y) in ch.labels {
          var n :| 0 <= n < |ch.labels| && ch.labels[n] == At(y);
        }
        if y in years {
          var n :| 0 <= n < |years| && years[n] == y;
          assert ch.labels[n] == At(y);
        }
      }
    }
  }

  /**
   * Each point of the yearly chart is the cases of the FIRST record with
   * that numeric year (`===`, so never a NaN year) and that disease, NaN
   * when its case cell is not a number, and null when no record matches.
   */
  lemma YearlyPoint(rs: seq<Record>, diseases: seq<string>, years: seq<Num>, j: int, i: int)
    requires 0 <= j < |diseases| && 0 <= i < |years|
    ensures var ch := YearlyChart(rs, diseases, years);
            && ch.labels[i] == At(years[i])
            && |ch.series[j]| == |years|
            && (ch.series[j][i].Some? <==> exists m :: 0 <= m < |rs| && Matches(rs[m], years[i], diseases[j]))
            && (ch.series[j][i].Some? ==>
                  exists m :: 0 <= m < |rs| && Matches(rs[m], years[i], diseases[j])
                    && ch.series[j][i].value == rs[m].cases
                    && forall m' :: 0 <= m' < m ==> !Matches(rs[m'], years[i], diseases[j]))
  {
    var n := FirstMatch(rs, years[i], diseases[j]);
    if n >= 0 {
      assert FirstCases(rs, years[i], diseases[j]) == Some(rs[n].cases);
    }
  }

  /**
   * Duplicate rows (same year, disease and week) resolve differently in the
   * two modes: the weekly chart shows the later row's cases ...
   */
  lemma WeeklyKeepsLastDuplicate()
    ensures var r1 := Record(Int(2020), Int(1), Some("flu"), Int(10));
            var r2 := Record(Int(2020), Int(1), Some("flu"), Int(99));
            WeekChart([r1, r2], OneYear(Int(2020), ["flu"]), DiseaseSlot, DiseaseKeys(["flu"]))
              == Drawn(Chart([At(Int(1))], [[Some(Int(99))]]))
  {
    var r1 := Record(Int(2020), Int(1), Some("flu"), Int(10));
    var r2 := Record(Int(2020), Int(1), Some("flu"), Int(99));
    var rs := [r1, r2];
    var c := OneYear(Int(2020), ["flu"]);
    assert rs[..1] == [r1] && [r1][..0] == [];
    assert Filter([r1], c) == [r1];
    assert Filter(rs, c) == rs;
    assert WeekSet([r1]) == [Int(1)];
    assert WeekSet(rs) == [Int(1)];
    assert [Int(1)][..0] == [];
    assert WeekAxis(rs) == [Int(1)];
    assert Axis([Int(1)]) == [At(Int(1))];
    assert LastCases(rs, DiseaseSlot, Some("flu"), 1) == Some(99);
    assert Line(rs, DiseaseSlot, Some("flu"), [Int(1)]) == [Some(Int(99))];
    assert Series(rs, DiseaseSlot, DiseaseKeys(["flu"]), [Int(1)]) == [[Some(Int(99))]];
  }

  /** ... and the yearly chart the earlier row's. */
  lemma YearlyKeepsFirstDuplicate()
    ensures var r1 := Record(Int(2020), Int(1), Some("flu"), Int(10));
            var r2 := Record(Int(2020), Int(1), Some("flu"), Int(99));
            YearlyChart([r1, r2], ["flu"], [Int(2020)]) == Chart([At(Int(2020))], [[Some(Int(10))]])
  {
    var r1 := Record(Int(2020), Int(1), Some("flu"), Int(10));
    var r2 := Record(Int(2020), Int(1), Some("flu"), Int(99));
    assert FirstMatch([r1, r2], Int(2020), "flu") == 0;
    assert FirstCases([r1, r2], Int(2020), "flu") == Some(Int(10));
    var ch := YearlyChart([r1, r2], ["flu"], [Int(2020)]);
    assert ch.labels == [At(Int(2020))];
    assert |ch.series| == 1 && ch.series[0] == [Some(Int(10))];
  }
}
