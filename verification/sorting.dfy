/**
 * `Array.prototype.sort` as the viewer uses it. Since ES2019 the sort is
 * stable, so it is modelled by a stable insertion sort over a comparator
 * `le` ("a may stay before b"); the three comparators the viewer uses are
 * defined here and shown to be total preorders.
 */
module Sorting {
  import opened JsValues

  ghost predicate Total<T(!new)>(le: (T, T) -> bool) {
    forall a, b :: le(a, b) || le(b, a)
  }

  ghost predicate Transitive<T(!new)>(le: (T, T) -> bool) {
    forall a, b, c :: le(a, b) && le(b, c) ==> le(a, c)
  }

  ghost predicate Antisymmetric<T(!new)>(le: (T, T) -> bool) {
    forall a, b :: le(a, b) && le(b, a) ==> a == b
  }

  ghost predicate TotalPreorder<T(!new)>(le: (T, T) -> bool) {
    Total(le) && Transitive(le)
  }

  predicate Sorted<T>(s: seq<T>, le: (T, T) -> bool) {
    forall i, j :: 0 <= i < j < |s| ==> le(s[i], s[j])
  }

  predicate NoDups<T(==)>(s: seq<T>) {
    forall i, j :: 0 <= i < j < |s| ==> s[i] != s[j]
  }

  /** Puts `x` after every element of `s` that may stay before it. */
  function Insert<T(==)>(x: T, s: seq<T>, le: (T, T) -> bool): (r: seq<T>)
    ensures |r| == |s| + 1
    ensures multiset(r) == multiset(s) + multiset{x}
  {
    if s == [] then [x]
    else if !le(s[0], x) then [x] + s
    else
      assert s == [s[0]] + s[1..];
      [s[0]] + Insert(x, s[1..], le)
  }

  /** `xs.sort(cmp)`: elements are inserted in their original order, so ties keep it. */
  function Sort<T(==)>(xs: seq<T>, le: (T, T) -> bool): (r: seq<T>)
    ensures multiset(r) == multiset(xs)
    ensures |r| == |xs|
  {
    if xs == [] then []
    else
      var init := xs[..|xs| - 1];
      assert xs == init + [xs[|xs| - 1]];
      assert multiset(xs) == multiset(init) + multiset{xs[|xs| - 1]};
      Insert(xs[|xs| - 1], Sort(init, le), le)
  }

  lemma {:induction false} InsertSorted<T(!new)>(x: T, s: seq<T>, le: (T, T) -> bool)
    requires TotalPreorder(le) && Sorted(s, le)
    ensures Sorted(Insert(x, s, le), le)
  {
    if s == [] {
    } else if !le(s[0], x) {
      assert le(x, s[0]);
      var r := [x] + s;
      forall i, j | 0 <= i < j < |r| ensures le(r[i], r[j]) {
        if i == 0 && j > 1 {
          assert le(s[0], s[j - 1]);
        }
      }
    } else {
      var tail := Insert(x, s[1..], le);
      InsertSorted(x, s[1..], le);
      var r := [s[0]] + tail;
      forall i, j | 0 <= i < j < |r| ensures le(r[i], r[j]) {
        if i == 0 {
          assert r[j] in multiset(tail);
          assert r[j] == x || r[j] in s[1..];
        }
      }
    }
  }

  /** The sort's result is ordered by any comparator that is a total preorder. */
  lemma {:induction false} SortSorted<T(!new)>(xs: seq<T>, le: (T, T) -> bool)
    requires TotalPreorder(le)
    ensures Sorted(Sort(xs, le), le)
  {
    if xs != [] {
      SortSorted(xs[..|xs| - 1], le);
      InsertSorted(xs[|xs| - 1], Sort(xs[..|xs| - 1], le), le);
    }
  }

  lemma {:induction false} InsertNoDups<T>(x: T, s: seq<T>, le: (T, T) -> bool)
    requires NoDups(s) && x !in s
    ensures NoDups(Insert(x, s, le))
  {
    if s != [] && le(s[0], x) {
      InsertNoDups(x, s[1..], le);
      var tail := Insert(x, s[1..], le);
      assert s[0] !in multiset(tail);
    }
  }

  /** Sorting a duplicate-free sequence keeps it duplicate-free. */
  lemma {:induction false} SortNoDups<T>(xs: seq<T>, le: (T, T) -> bool)
    requires NoDups(xs)
    ensures NoDups(Sort(xs, le))
  {
    if xs != [] {
      var init := xs[..|xs| - 1];
      SortNoDups(init, le);
      assert xs[|xs| - 1] !in multiset(init);
      InsertNoDups(xs[|xs| - 1], Sort(init, le), le);
    }
  }

  /** `a` and `b` tie under `le`: either may stay before the other. */
  predicate Tie<T>(le: (T, T) -> bool, a: T, b: T) {
    le(a, b) && le(b, a)
  }

  /** The elements of `s` that tie with `t`, in their order in `s`. */
  function TiedWith<T>(s: seq<T>, le: (T, T) -> bool, t: T): (r: seq<T>)
    ensures |r| <= |s|
  {
    if s == [] then []
    else (if Tie(le, s[0], t) then [s[0]] else []) + TiedWith(s[1..], le, t)
  }

  lemma TiedWithCons<T>(a: T, s: seq<T>, le: (T, T) -> bool, t: T)
    ensures TiedWith([a] + s, le, t) == (if Tie(le, a, t) then [a] else []) + TiedWith(s, le, t)
  {
    assert ([a] + s)[1..] == s;
  }

  lemma {:induction false} TiedWithSnoc<T>(s: seq<T>, x: T, le: (T, T) -> bool, t: T)
    ensures TiedWith(s + [x], le, t) == TiedWith(s, le, t) + (if Tie(le, x, t) then [x] else [])
    decreases |s|
  {
    if s != [] {
      assert (s + [x])[1..] == s[1..] + [x];
      TiedWithSnoc(s[1..], x, le, t);
    }
  }

  lemma {:induction false} NoneTied<T>(s: seq<T>, le: (T, T) -> bool, t: T)
    requires forall k :: 0 <= k < |s| ==> !Tie(le, s[k], t)
    ensures TiedWith(s, le, t) == []
    decreases |s|
  {
    if s != [] {
      NoneTied(s[1..], le, t);
    }
  }

  /** Nothing in a sorted `s` ties with `t` when `t` ties with an `x` below `s`'s head. */
  lemma BelowHeadNoneTied<T(!new)>(x: T, s: seq<T>, le: (T, T) -> bool, t: T)
    requires TotalPreorder(le) && Sorted(s, le)
    requires s != [] && !le(s[0], x) && Tie(le, x, t)
    ensures TiedWith(s, le, t) == []
  {
    forall k | 0 <= k < |s| ensures !Tie(le, s[k], t) {
      assert k == 0 || le(s[0], s[k]);
    }
    NoneTied(s, le, t);
  }

  /**
   * Inserting into a sorted sequence puts `x` after every element it ties
   * with: among the elements tied with `t`, `x` comes last.
   */
  lemma {:induction false} InsertStable<T(!new)>(x: T, s: seq<T>, le: (T, T) -> bool, t: T)
    requires TotalPreorder(le) && Sorted(s, le)
    ensures TiedWith(Insert(x, s, le), le, t) == TiedWith(s, le, t) + (if Tie(le, x, t) then [x] else [])
    decreases |s|
  {
    if s == [] {
    } else if !le(s[0], x) {
      assert Insert(x, s, le) == [x] + s;
      TiedWithCons(x, s, le, t);
      if Tie(le, x, t) {
        BelowHeadNoneTied(x, s, le, t);
      }
    } else {
      var tail := s[1..];
      assert Sorted(tail, le);
      assert Insert(x, s, le) == [s[0]] + Insert(x, tail, le);
      InsertStable(x, tail, le, t);
      TiedWithCons(s[0], Insert(x, tail, le), le, t);
      assert s == [s[0]] + tail;
      TiedWithCons(s[0], tail, le, t);
    }
  }

  /** Inserting the next element into a sorted prefix keeps the ties in order. */
  lemma SortedInsertStable<T(!new)>(x: T, init: seq<T>, le: (T, T) -> bool, t: T)
    requires TotalPreorder(le)
    ensures TiedWith(Insert(x, Sort(init, le), le), le, t)
            == TiedWith(Sort(init, le), le, t) + (if Tie(le, x, t) then [x] else [])
  {
    SortSorted(init, le);
    InsertStable(x, Sort(init, le), le, t);
  }

  /** Inserting `x` into the sorted `init` appends `x` to the elements tied with `t` when it ties. */
  ghost predicate InsertKeepsTies<T>(le: (T, T) -> bool, t: T, x: T, init: seq<T>) {
    TiedWith(Insert(x, Sort(init, le), le), le, t)
    == TiedWith(Sort(init, le), le, t) + (if Tie(le, x, t) then [x] else [])
  }

  /** The induction of `SortStable`, given that each insertion step keeps the ties in order. */
  lemma {:induction false} SortKeepsTies<T>(xs: seq<T>, le: (T, T) -> bool, t: T)
    requires forall x, init :: InsertKeepsTies(le, t, x, init)
    ensures TiedWith(Sort(xs, le), le, t) == TiedWith(xs, le, t)
    decreases |xs|
  {
    if xs != [] {
      var init := xs[..|xs| - 1];
      var x := xs[|xs| - 1];
      SortKeepsTies(init, le, t);
      assert InsertKeepsTies(le, t, x, init);
      assert xs == init + [x];
      TiedWithSnoc(init, x, le, t);
    }
  }

  /**
   * The sort is stable: the elements that tie with any `t` keep their input
   * order (ES2019 requires this of `Array.prototype.sort`).
   */
  lemma SortStable<T(!new)>(xs: seq<T>, le: (T, T) -> bool, t: T)
    requires TotalPreorder(le)
    ensures TiedWith(Sort(xs, le), le, t) == TiedWith(xs, le, t)
  {
    forall x, init ensures InsertKeepsTies(le, t, x, init) {
      SortedInsertStable(x, init, le, t);
    }
    SortKeepsTies(xs, le, t);
  }

  /** Membership survives sorting. */
  lemma SortMembers<T>(xs: seq<T>, le: (T, T) -> bool)
    ensures forall x :: x in Sort(xs, le) <==> x in xs
  {
    forall x ensures x in Sort(xs, le) <==> x in xs {
      assert x in Sort(xs, le) <==> x in multiset(Sort(xs, le));
      assert x in xs <==> x in multiset(xs);
    }
  }

  // ---------------------------------------------------------------------------
  // The viewer's comparators

  /**
   * `(a, b) => a - b` on numbers: integers ascending. JavaScript leaves the
   * place of NaN unspecified; this order puts NaN after every integer.
   */
  predicate NumLe(a: Num, b: Num) {
    match a
    case NaN => b.NaN?
    case Int(x) => b.NaN? || x <= b.v
  }

  predicate IntLe(a: int, b: int) {
    a <= b
  }

  /** `(a, b) => Number(a) - Number(b)` on year cells. */
  predicate YearCellLe(a: string, b: string) {
    NumLe(ToNum(a), ToNum(b))
  }

  /** The default `sort()` on strings: lexicographic by character code. */
  predicate LexLe(a: string, b: string)
    decreases |a|
  {
    if a == [] then true
    else if b == [] then false
    else if a[0] != b[0] then a[0] < b[0]
    else LexLe(a[1..], b[1..])
  }

  lemma NumLeIsTotalOrder()
    ensures TotalPreorder(NumLe) && Antisymmetric(NumLe)
  {
  }

  lemma IntLeIsTotalOrder()
    ensures TotalPreorder(IntLe) && Antisymmetric(IntLe)
  {
  }

  lemma YearCellLeIsTotalPreorder()
    ensures TotalPreorder(YearCellLe)
  {
    NumLeIsTotalOrder();
  }

  lemma {:induction false} LexLeTotal(a: string, b: string)
    ensures LexLe(a, b) || LexLe(b, a)
    decreases |a|
  {
    if a != [] && b != [] && a[0] == b[0] {
      LexLeTotal(a[1..], b[1..]);
    }
  }

  lemma {:induction false} LexLeTransitive(a: string, b: string, c: string)
    requires LexLe(a, b) && LexLe(b, c)
    ensures LexLe(a, c)
    decreases |a|
  {
    if a != [] && b != [] && c != [] && a[0] == b[0] && b[0] == c[0] {
      LexLeTransitive(a[1..], b[1..], c[1..]);
    }
  }

  lemma {:induction false} LexLeAntisymmetric(a: string, b: string)
    requires LexLe(a, b) && LexLe(b, a)
    ensures a == b
    decreases |a|
  {
    if a != [] && b != [] {
      LexLeAntisymmetric(a[1..], b[1..]);
      assert a == [a[0]] + a[1..] && b == [b[0]] + b[1..];
    }
  }

  /** Lexicographic order on strings is a total order. */
  lemma LexLeIsTotalOrder()
    ensures TotalPreorder(LexLe) && Antisymmetric(LexLe)
  {
    forall a, b ensures LexLe(a, b) || LexLe(b, a) {
      LexLeTotal(a, b);
    }
    forall a, b, c | LexLe(a, b) && LexLe(b, c) ensures LexLe(a, c) {
      LexLeTransitive(a, b, c);
    }
    forall a, b | LexLe(a, b) && LexLe(b, a) ensures a == b {
      LexLeAntisymmetric(a, b);
    }
  }

  /**
   * A sorted, duplicate-free sequence under a total order is strictly
   * ascending: no element may stay before an earlier one.
   */
  lemma StrictlyAscending<T(!new)>(s: seq<T>, le: (T, T) -> bool)
    requires Antisymmetric(le) && Sorted(s, le) && NoDups(s)
    ensures forall i, j :: 0 <= i < j < |s| ==> !le(s[j], s[i])
  {
  }
}
