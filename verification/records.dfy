/**
 * What the four draw functions of viewer/script.js share: a data row read
 * through the resolved columns, the row filters, the week `Set` built by
 * `forEach`, and the nested `maps[key][week] = cases` objects filled by
 * `forEach` (a later row overwrites an earlier one).
 */
module Records {
  import opened JsValues
  import opened Sorting
  import opened Schema

  /**
   * One data row as the draw functions read it: `Number(row[yearIdx])`,
   * `Number(row[weekIdx])`, `row[diseaseIdx]` and `Number(row[casesIdx])`.
   */
  datatype Record = Record(year: Num, week: Num, disease: Option<string>, cases: Num)

  function ToRecord(row: seq<string>, cols: Columns): Record {
    Record(CellNum(Cell(row, cols.year)), CellNum(Cell(row, cols.week)),
           Cell(row, cols.disease), CellNum(Cell(row, cols.cases)))
  }

  function ToRecords(rows: seq<seq<string>>, cols: Columns): (rs: seq<Record>)
    ensures |rs| == |rows|
    ensures forall i :: 0 <= i < |rows| ==> rs[i] == ToRecord(rows[i], cols)
  {
    seq(|rows|, i requires 0 <= i < |rows| => ToRecord(rows[i], cols))
  }

  /** `selected.map(y => Number(y))`. */
  function Nums(ss: seq<string>): (ns: seq<Num>)
    ensures |ns| == |ss|
    ensures forall i :: 0 <= i < |ss| ==> ns[i] == ToNum(ss[i])
  {
    seq(|ss|, i requires 0 <= i < |ss| => ToNum(ss[i]))
  }

  // ---------------------------------------------------------------------------
  // Filters

  /** The two `filter` callbacks of the weekly draws. */
  datatype Criterion =
    | OneYear(target: Num, diseases: seq<string>)
      // byDisease: `Number(row[yearIdx]) === targetYear && selectedDiseases.includes(row[diseaseIdx])`
    | OneDisease(years: seq<Num>, disease: string)
      // byYear, tandem: `years.includes(Number(row[yearIdx])) && row[diseaseIdx] === disease`

  /** `===` never matches NaN; `includes` compares by SameValueZero, under which NaN matches NaN. */
  predicate Keeps(c: Criterion, r: Record) {
    match c
    case OneYear(target, diseases) => StrictEq(r.year, target) && r.disease.Some? && r.disease.value in diseases
    case OneDisease(years, disease) => r.year in years && r.disease == Some(disease)
  }

  /** `rows.filter(...)`: the kept records, in their original order. */
  function Filter(rs: seq<Record>, c: Criterion): (kept: seq<Record>)
    ensures |kept| <= |rs|
    ensures forall r :: r in kept <==> r in rs && Keeps(c, r)
    decreases |rs|
  {
    if rs == [] then []
    else
      var init := rs[..|rs| - 1];
      var last := rs[|rs| - 1];
      assert forall r :: r in rs <==> r in init || r == last;
      Filter(init, c) + (if Keeps(c, last) then [last] else [])
  }

  /** The positions of the accepted records, ascending. */
  function KeptPositions(rs: seq<Record>, c: Criterion): (idx: seq<int>)
    ensures forall m :: 0 <= m < |idx| ==> 0 <= idx[m] < |rs|
    ensures forall m, n :: 0 <= m < n < |idx| ==> idx[m] < idx[n]
    decreases |rs|
  {
    if rs == [] then []
    else
      var init := rs[..|rs| - 1];
      KeptPositions(init, c) + (if Keeps(c, rs[|rs| - 1]) then [|rs| - 1] else [])
  }

  /** A position is listed exactly when the record there is accepted. */
  lemma {:induction false} KeptPositionsMembers(rs: seq<Record>, c: Criterion)
    ensures forall i :: i in KeptPositions(rs, c) <==> 0 <= i < |rs| && Keeps(c, rs[i])
    decreases |rs|
  {
    if rs != [] {
      var init := rs[..|rs| - 1];
      KeptPositionsMembers(init, c);
      assert forall i :: 0 <= i < |init| ==> init[i] == rs[i];
    }
  }

  /** Appending the last element (or nothing) keeps a list of elements and their positions in step. */
  lemma AppendPositions<T>(xs: seq<T>, kept: seq<T>, idx: seq<int>, keep: bool)
    requires |xs| > 0 && |kept| == |idx|
    requires forall m :: 0 <= m < |idx| ==> 0 <= idx[m] < |xs| - 1 && kept[m] == xs[idx[m]]
    ensures var k2 := kept + (if keep then [xs[|xs| - 1]] else []);
            var i2 := idx + (if keep then [|xs| - 1] else []);
            |k2| == |i2| && forall m :: 0 <= m < |k2| ==> k2[m] == xs[i2[m]]
  {
  }

  /** The filter keeps exactly the accepted records, each once, in their original order. */
  lemma {:induction false} FilterPositions(rs: seq<Record>, c: Criterion)
    ensures |Filter(rs, c)| == |KeptPositions(rs, c)|
    ensures forall m :: 0 <= m < |Filter(rs, c)| ==> Filter(rs, c)[m] == rs[KeptPositions(rs, c)[m]]
    decreases |rs|
  {
    if rs != [] {
      var init := rs[..|rs| - 1];
      FilterPositions(init, c);
      var kept, idx := Filter(init, c), KeptPositions(init, c);
      assert forall m :: 0 <= m < |idx| ==> kept[m] == init[idx[m]] == rs[idx[m]];
      AppendPositions(rs, kept, idx, Keeps(c, rs[|rs| - 1]));
    }
  }

  lemma FilterEmpty(rs: seq<Record>, c: Criterion)
    ensures Filter(rs, c) == [] <==> forall i :: 0 <= i < |rs| ==> !Keeps(c, rs[i])
  {
    if Filter(rs, c) != [] {
      assert Filter(rs, c)[0] in Filter(rs, c);
    }
  }

  // ---------------------------------------------------------------------------
  // Week sets

  /** The records' `Number(row[weekIdx])` values, NaN included, each once, in first-seen order. */
  function WeekSet(rs: seq<Record>): (ws: seq<Num>)
    ensures |ws| <= |rs|
    decreases |rs|
  {
    if rs == [] then []
    else
      var prev := WeekSet(rs[..|rs| - 1]);
      var w := rs[|rs| - 1].week;
      if w in prev then prev else prev + [w]
  }

  lemma {:induction false} WeekSetFacts(rs: seq<Record>)
    ensures NoDups(WeekSet(rs))
    ensures forall w :: w in WeekSet(rs) <==> exists i :: 0 <= i < |rs| && rs[i].week == w
    decreases |rs|
  {
    if rs != [] {
      var init := rs[..|rs| - 1];
      WeekSetFacts(init);
      forall w | w in WeekSet(init) ensures exists i :: 0 <= i < |rs| && rs[i].week == w {
        var i :| 0 <= i < |init| && init[i].week == w;
        assert rs[i].week == w;
      }
      forall w | exists i :: 0 <= i < |rs| && rs[i].week == w ensures w in WeekSet(rs) {
        var i :| 0 <= i < |rs| && rs[i].week == w;
        if i < |rs| - 1 {
          assert init[i].week == w;
        }
      }
    }
  }

  /** `filtered.forEach(row => weekSet.add(Number(row[weekIdx])))`. */
  method CollectWeeks(rs: seq<Record>) returns (weeks: seq<Num>)
    ensures weeks == WeekSet(rs)
    ensures NoDups(weeks)
  {
    weeks := [];
    for i := 0 to |rs|
      invariant weeks == WeekSet(rs[..i])
    {
      assert rs[..i + 1][..i] == rs[..i];
      if rs[i].week !in weeks {
        weeks := weeks + [rs[i].week];
      }
    }
    assert rs[..|rs|] == rs;
    WeekSetFacts(rs);
  }

  /** `Array.from(weekSet).sort((a, b) => a - b)`: the week axis of byDisease and byYear. */
  function WeekAxis(rs: seq<Record>): (axis: seq<Num>)
    ensures |axis| <= |rs|
    ensures Sorted(axis, NumLe)
  {
    NumLeIsTotalOrder();
    SortSorted(WeekSet(rs), NumLe);
    Sort(WeekSet(rs), NumLe)
  }

  /**
   * The week axis holds every week value of the records, even of records
   * whose cases are not a number, each once, in strictly ascending order
   * (NaN, if present, last).
   */
  lemma WeekAxisFacts(rs: seq<Record>)
    ensures forall w :: w in WeekAxis(rs) <==> exists i :: 0 <= i < |rs| && rs[i].week == w
    ensures NoDups(WeekAxis(rs))
    ensures var axis := WeekAxis(rs);
            forall i, j :: 0 <= i < j < |axis| ==> NumLe(axis[i], axis[j]) && axis[i] != axis[j]
    ensures rs != [] ==> |WeekAxis(rs)| > 0
  {
    WeekSetFacts(rs);
    SortMembers(WeekSet(rs), NumLe);
    SortNoDups(WeekSet(rs), NumLe);
    NumLeIsTotalOrder();
    SortSorted(WeekSet(rs), NumLe);
    if rs != [] {
      assert rs[0].week in WeekAxis(rs);
    }
  }

  /** The week axis of the kept records, stated over all records. */
  lemma WeekAxisOfFilter(rs: seq<Record>, c: Criterion)
    ensures forall w :: w in WeekAxis(Filter(rs, c)) <==>
              exists i :: 0 <= i < |rs| && Keeps(c, rs[i]) && rs[i].week == w
  {
    var kept := Filter(rs, c);
    WeekSetFacts(kept);
    SortMembers(WeekSet(kept), NumLe);
    forall w ensures w in WeekAxis(kept) <==> exists i :: 0 <= i < |rs| && Keeps(c, rs[i]) && rs[i].week == w {
      if w in WeekAxis(kept) {
        var i :| 0 <= i < |kept| && kept[i].week == w;
        assert kept[i] in rs;
      }
      if exists i :: 0 <= i < |rs| && Keeps(c, rs[i]) && rs[i].week == w {
        var i :| 0 <= i < |rs| && Keeps(c, rs[i]) && rs[i].week == w;
        assert rs[i] in kept;
        var m :| 0 <= m < |kept| && kept[m] == rs[i];
      }
    }
  }

  // ---------------------------------------------------------------------------
  // The `maps[key][week] = cases` objects

  /** What one record writes into the maps, if anything: `maps[key][week] = cases`. */
  datatype Entry<K> = Entry(key: K, week: int, cases: int)

  predicate Writes<K(==)>(e: Option<Entry<K>>, k: K, w: int) {
    e.Some? && e.value.key == k && e.value.week == w
  }

  /** byDisease: keyed by the disease cell, written only when week and cases are numbers. */
  function DiseaseSlot(r: Record): Option<Entry<Option<string>>> {
    if r.week.Int? && r.cases.Int? then Some(Entry(r.disease, r.week.v, r.cases.v)) else None
  }

  /** byYear: keyed by the year number (NaN included), written only when week and cases are numbers. */
  function YearSlot(r: Record): Option<Entry<Num>> {
    if r.week.Int? && r.cases.Int? then Some(Entry(r.year, r.week.v, r.cases.v)) else None
  }

  /** tandem: keyed by the year number, written only when year, week and cases are all numbers. */
  function TandemSlot(r: Record): Option<Entry<Num>> {
    if r.year.Int? && r.week.Int? && r.cases.Int? then Some(Entry(r.year, r.week.v, r.cases.v)) else None
  }

  /** The reference for a map cell: the cases of the last record that writes (k, w). */
  function LastCases<K(==)>(rs: seq<Record>, slot: Record -> Option<Entry<K>>, k: K, w: int): Option<int>
    decreases |rs|
  {
    if rs == [] then None
    else
      var e := slot(rs[|rs| - 1]);
      if Writes(e, k, w) then Some(e.value.cases) else LastCases(rs[..|rs| - 1], slot, k, w)
  }

  /**
   * Last write wins: a cell is empty exactly when no record writes it, and
   * otherwise holds the cases of a record that writes it and after which no
   * record writes it again.
   */
  lemma {:induction false} LastCasesIsLastWrite<K>(rs: seq<Record>, slot: Record -> Option<Entry<K>>, k: K, w: int)
    ensures LastCases(rs, slot, k, w).None? <==> forall i :: 0 <= i < |rs| ==> !Writes(slot(rs[i]), k, w)
    ensures LastCases(rs, slot, k, w).Some? ==>
              exists i :: 0 <= i < |rs| && Writes(slot(rs[i]), k, w)
                && slot(rs[i]).value.cases == LastCases(rs, slot, k, w).value
                && forall j :: i < j < |rs| ==> !Writes(slot(rs[j]), k, w)
    decreases |rs|
  {
    if rs != [] {
      var init := rs[..|rs| - 1];
      LastCasesIsLastWrite(init, slot, k, w);
      if !Writes(slot(rs[|rs| - 1]), k, w) {
        if LastCases(init, slot, k, w).Some? {
          var i :| 0 <= i < |init| && Writes(slot(init[i]), k, w)
                   && slot(init[i]).value.cases == LastCases(init, slot, k, w).value
                   && forall j :: i < j < |init| ==> !Writes(slot(init[j]), k, w);
          assert forall j :: i < j < |rs| ==> !Writes(slot(rs[j]), k, w) by {
            forall j | i < j < |rs| ensures !Writes(slot(rs[j]), k, w) {
              if j < |rs| - 1 {
                assert rs[j] == init[j];
              }
            }
          }
        } else {
          forall i | 0 <= i < |rs| ensures !Writes(slot(rs[i]), k, w) {
            if i < |rs| - 1 {
              assert rs[i] == init[i];
            }
          }
        }
      }
    }
  }

  /**
   * Last write over filtered rows, stated on the unfiltered rows: the cell
   * holds the cases of the last kept record that writes it.
   */
  lemma {:induction false} LastCasesOfFilter<K>(rs: seq<Record>, c: Criterion, slot: Record -> Option<Entry<K>>, k: K, w: int)
    ensures LastCases(Filter(rs, c), slot, k, w) ==
              if exists i :: 0 <= i < |rs| && Keeps(c, rs[i]) && Writes(slot(rs[i]), k, w)
              then Some(slot(rs[LastKeptWriter(rs, c, slot, k, w)]).value.cases)
              else None
    decreases |rs|
  {
    if rs != [] {
      var init := rs[..|rs| - 1];
      var last := rs[|rs| - 1];
      LastCasesOfFilter(init, c, slot, k, w);
      var kept := Filter(rs, c);
      if Keeps(c, last) {
        assert kept == Filter(init, c) + [last];
        assert kept[..|kept| - 1] == Filter(init, c);
        assert kept[|kept| - 1] == last;
      } else {
        assert kept == Filter(init, c) + [];
        assert kept == Filter(init, c);
      }
      if !(Keeps(c, last) && Writes(slot(last), k, w)) {
        assert LastCases(kept, slot, k, w) == LastCases(Filter(init, c), slot, k, w);
        KeptWriterSkipsLast(rs, c, slot, k, w);
      }
    }
  }

  /** A last record that is dropped or does not write (k, w) changes nothing about the kept writers. */
  lemma KeptWriterSkipsLast<K>(rs: seq<Record>, c: Criterion, slot: Record -> Option<Entry<K>>, k: K, w: int)
    requires rs != []
    requires !(Keeps(c, rs[|rs| - 1]) && Writes(slot(rs[|rs| - 1]), k, w))
    ensures var init := rs[..|rs| - 1];
            var n := LastKeptWriter(init, c, slot, k, w);
            && LastKeptWriter(rs, c, slot, k, w) == n
            && (n >= 0 ==> rs[n] == init[n])
            && ((exists i :: 0 <= i < |rs| && Keeps(c, rs[i]) && Writes(slot(rs[i]), k, w)) <==>
                (exists i :: 0 <= i < |init| && Keeps(c, init[i]) && Writes(slot(init[i]), k, w)))
  {
    var init := rs[..|rs| - 1];
    if exists i :: 0 <= i < |rs| && Keeps(c, rs[i]) && Writes(slot(rs[i]), k, w) {
      var i :| 0 <= i < |rs| && Keeps(c, rs[i]) && Writes(slot(rs[i]), k, w);
      assert i < |rs| - 1 && init[i] == rs[i];
    }
    if exists i :: 0 <= i < |init| && Keeps(c, init[i]) && Writes(slot(init[i]), k, w) {
      var i :| 0 <= i < |init| && Keeps(c, init[i]) && Writes(slot(init[i]), k, w);
      assert rs[i] == init[i];
    }
  }

  /** The position of the last kept record that writes (k, w); -1 when there is none. */
  function LastKeptWriter<K(==)>(rs: seq<Record>, c: Criterion, slot: Record -> Option<Entry<K>>, k: K, w: int): (n: int)
    ensures -1 <= n < |rs|
    ensures n >= 0 ==> Keeps(c, rs[n]) && Writes(slot(rs[n]), k, w)
    ensures forall j :: n < j < |rs| ==> !(Keeps(c, rs[j]) && Writes(slot(rs[j]), k, w))
    decreases |rs|
  {
    if rs == [] then -1
    else if Keeps(c, rs[|rs| - 1]) && Writes(slot(rs[|rs| - 1]), k, w) then |rs| - 1
    else LastKeptWriter(rs[..|rs| - 1], c, slot, k, w)
  }

  /** `maps[k][w]`, undefined (None) when either level is missing. */
  function Lookup<K(==)>(maps: map<K, map<int, int>>, k: K, w: int): Option<int> {
    if k in maps && w in maps[k] then Some(maps[k][w]) else None
  }

  /**
   * The map-filling `forEach`: `maps[key] = {}` for each selected key, then
   * `maps[key][week] = cases` for every record that writes, in order.
   */
  method Tabulate<K(==,!new)>(rs: seq<Record>, slot: Record -> Option<Entry<K>>, keys: seq<K>)
    returns (maps: map<K, map<int, int>>)
    ensures Tabulates(maps, rs, slot)
  {
    maps := map k | k in keys :: map[];
    for i := 0 to |rs|
      invariant forall k, w :: Lookup(maps, k, w) == LastCases(rs[..i], slot, k, w)
    {
      assert rs[..i + 1][..i] == rs[..i];
      var e := slot(rs[i]);
      if e.Some? {
        var inner := if e.value.key in maps then maps[e.value.key] else map[];
        maps := maps[e.value.key := inner[e.value.week := e.value.cases]];
      }
    }
    assert rs[..|rs|] == rs;
  }

  /** Every cell of `maps` holds what the last write of `rs` put there, and no other cell exists. */
  ghost predicate Tabulates<K(!new)>(maps: map<K, map<int, int>>, rs: seq<Record>, slot: Record -> Option<Entry<K>>) {
    forall k, w :: Lookup(maps, k, w) == LastCases(rs, slot, k, w)
  }

  /** Reading a filled map gives the reference value of the cell. */
  lemma ReadTabulated<K(!new)>(maps: map<K, map<int, int>>, rs: seq<Record>, slot: Record -> Option<Entry<K>>, k: K, w: Num)
    requires Tabulates(maps, rs, slot)
    ensures Read(maps, k, w) == ValueAt(rs, slot, k, w)
  {
    if w.Int? {
      assert Lookup(maps, k, w.v) == LastCases(rs, slot, k, w.v);
    }
  }

  /** `maps[k][w] != null ? maps[k][w] : null` as a number or null; a NaN week finds nothing. */
  function ValueAt<K(==)>(rs: seq<Record>, slot: Record -> Option<Entry<K>>, k: K, w: Num): (v: Option<Num>)
    ensures v.Some? ==> v.value.Int?
  {
    if w.NaN? then None
    else match LastCases(rs, slot, k, w.v)
      case None => None
      case Some(c) => Some(Int(c))
  }

  /** `maps[k][w]` read from the filled maps. */
  function Read<K(==)>(maps: map<K, map<int, int>>, k: K, w: Num): Option<Num> {
    if w.NaN? then None
    else match Lookup(maps, k, w.v)
      case None => None
      case Some(c) => Some(Int(c))
  }

  /** One dataset: `weeks.map(w => maps[k][w] != null ? maps[k][w] : null)`, as the reference gives it. */
  function Line<K(==)>(rs: seq<Record>, slot: Record -> Option<Entry<K>>, k: K, weeks: seq<Num>): (line: seq<Option<Num>>)
    ensures |line| == |weeks|
    ensures forall i :: 0 <= i < |weeks| ==> line[i] == ValueAt(rs, slot, k, weeks[i])
  {
    seq(|weeks|, i requires 0 <= i < |weeks| => ValueAt(rs, slot, k, weeks[i]))
  }

  /** The datasets as the reference gives them: one line per key. */
  function Series<K(==)>(rs: seq<Record>, slot: Record -> Option<Entry<K>>, keys: seq<K>, weeks: seq<Num>)
    : (lines: seq<seq<Option<Num>>>)
    ensures |lines| == |keys|
    ensures forall j :: 0 <= j < |keys| ==> lines[j] == Line(rs, slot, keys[j], weeks)
  {
    seq(|keys|, j requires 0 <= j < |keys| => Line(rs, slot, keys[j], weeks))
  }

  /**
   * The maps filled by `Tabulate`, then `keys.map(k => weeks.map(w => maps[k][w] ...))`:
   * one line per key, each read from the maps.
   */
  method Datasets<K(==,!new)>(rs: seq<Record>, slot: Record -> Option<Entry<K>>, keys: seq<K>, weeks: seq<Num>)
    returns (lines: seq<seq<Option<Num>>>)
    ensures lines == Series(rs, slot, keys, weeks)
  {
    var maps := Tabulate(rs, slot, keys);
    lines := seq(|keys|, j requires 0 <= j < |keys| =>
      seq(|weeks|, i requires 0 <= i < |weeks| => Read(maps, keys[j], weeks[i])));
    forall j | 0 <= j < |keys| ensures lines[j] == Line(rs, slot, keys[j], weeks) {
      forall i | 0 <= i < |weeks| ensures lines[j][i] == ValueAt(rs, slot, keys[j], weeks[i]) {
        ReadTabulated(maps, rs, slot, keys[j], weeks[i]);
      }
    }
  }

  // ---------------------------------------------------------------------------
  // Per-key week sets (tandem)

  /** `weekSets[k]`: the weeks written under key k, each once, in first-written order. */
  function KeyWeeks<K(==)>(rs: seq<Record>, slot: Record -> Option<Entry<K>>, k: K): seq<int>
    decreases |rs|
  {
    if rs == [] then []
    else
      var prev := KeyWeeks(rs[..|rs| - 1], slot, k);
      var e := slot(rs[|rs| - 1]);
      if e.Some? && e.value.key == k && e.value.week !in prev then prev + [e.value.week] else prev
  }

  /** A week is in a key's week set exactly when its map cell under that key is filled. */
  lemma {:induction false} KeyWeeksFacts<K>(rs: seq<Record>, slot: Record -> Option<Entry<K>>, k: K)
    ensures NoDups(KeyWeeks(rs, slot, k))
    ensures forall w :: w in KeyWeeks(rs, slot, k) <==> LastCases(rs, slot, k, w).Some?
    decreases |rs|
  {
    if rs != [] {
      KeyWeeksFacts(rs[..|rs| - 1], slot, k);
    }
  }

  /** Every key's week set holds the weeks written under it, in first-written order. */
  ghost predicate IndexesWeeks<K(!new)>(weekSets: map<K, seq<int>>, rs: seq<Record>, slot: Record -> Option<Entry<K>>) {
    forall k :: WeeksUnder(weekSets, k) == KeyWeeks(rs, slot, k)
  }

  /**
   * The `forEach` of `drawTandemYears`: `maps[y] = {}` and `weekSets[y] = new Set()`
   * for each key, then for every record that writes, `maps[y][w] = c` and
   * `weekSets[y].add(w)`.
   */
  method TabulateWithWeeks<K(==,!new)>(rs: seq<Record>, slot: Record -> Option<Entry<K>>, keys: seq<K>)
    returns (maps: map<K, map<int, int>>, weekSets: map<K, seq<int>>)
    ensures Tabulates(maps, rs, slot)
    ensures IndexesWeeks(weekSets, rs, slot)
  {
    maps := map k | k in keys :: map[];
    weekSets := map k | k in keys :: [];
    for i := 0 to |rs|
      invariant Tabulates(maps, rs[..i], slot)
      invariant IndexesWeeks(weekSets, rs[..i], slot)
    {
      assert rs[..i + 1][..i] == rs[..i];
      var e := slot(rs[i]);
      if e.Some? {
        var k, w, c := e.value.key, e.value.week, e.value.cases;
        var inner := if k in maps then maps[k] else map[];
        maps := maps[k := inner[w := c]];
        var ws := WeeksUnder(weekSets, k);
        if w !in ws {
          weekSets := weekSets[k := ws + [w]];
        }
      }
    }
    assert rs[..|rs|] == rs;
  }

  /** `weekSets[k] || []`. */
  function WeeksUnder<K(==)>(weekSets: map<K, seq<int>>, k: K): seq<int> {
    if k in weekSets then weekSets[k] else []
  }
}
