/**
 * Grouping of logged responses by gaze level: for every level present among
 * the rows that pass the face filter, how many rows there are and how many of
 * them answered "Left" and "Right"; levels in ascending order.
 */
module Aggregate {
  import opened Wrappers
  import opened Seqs
  import opened Records

  /** The counters kept for one level. */
  datatype Counts = Counts(n: nat, left: nat, right: nat)

  /** Parallel columns, one entry per level. */
  datatype Aggregation = Aggregation(xs: seq<int>, ns: seq<nat>, lefts: seq<nat>, rights: seq<nat>)

  /**
   * A row passes the face filter unless the filter is set and names another
   * face. As in JavaScript, an empty filter string counts as unset.
   */
  predicate Included(row: LogRow, faceFilter: Option<string>) {
    faceFilter.None? || faceFilter.value == "" || row.faceId == faceFilter.value
  }

  /** A row adds to level x's count of `resp` answers (of all answers when `resp` is None). */
  predicate Counted(row: LogRow, faceFilter: Option<string>, x: int, resp: Option<Response>) {
    Included(row, faceFilter) && row.gazeLevel == x && (resp.None? || row.response == resp.value)
  }

  function Tally(rows: seq<LogRow>, faceFilter: Option<string>, x: int, resp: Option<Response>): nat
    decreases |rows|
  {
    if rows == [] then 0
    else Tally(rows[..|rows| - 1], faceFilter, x, resp) + (if Counted(rows[|rows| - 1], faceFilter, x, resp) then 1 else 0)
  }

  /** The number of rows that pass the filter. */
  function IncludedCount(rows: seq<LogRow>, faceFilter: Option<string>): nat
    decreases |rows|
  {
    if rows == [] then 0
    else IncludedCount(rows[..|rows| - 1], faceFilter) + (if Included(rows[|rows| - 1], faceFilter) then 1 else 0)
  }

  /** The levels present among the rows that pass the filter. */
  function LevelSet(rows: seq<LogRow>, faceFilter: Option<string>): set<int> {
    set r | r in rows && Included(r, faceFilter) :: r.gazeLevel
  }

  /** The levels in order of first appearance: the key order of a JavaScript Map filled row by row. */
  function LevelsInOrder(rows: seq<LogRow>, faceFilter: Option<string>): seq<int>
    decreases |rows|
  {
    if rows == [] then []
    else
      var prev := LevelsInOrder(rows[..|rows| - 1], faceFilter);
      var row := rows[|rows| - 1];
      if Included(row, faceFilter) && row.gazeLevel !in prev then prev + [row.gazeLevel] else prev
  }

  predicate Ascending(s: seq<int>) {
    forall i, j :: 0 <= i < j < |s| ==> s[i] <= s[j]
  }

  predicate StrictlyAscending(s: seq<int>) {
    forall i, j :: 0 <= i < j < |s| ==> s[i] < s[j]
  }

  /** Inserts x before the first element not below it. */
  function Insert(x: int, s: seq<int>): (r: seq<int>)
    ensures multiset(r) == multiset(s) + multiset{x}
  {
    if s == [] || x <= s[0] then [x] + s
    else
      assert s == [s[0]] + s[1..];
      [s[0]] + Insert(x, s[1..])
  }

  /** Inserting into an ascending sequence keeps it ascending. */
  lemma {:induction false} InsertAscending(x: int, s: seq<int>)
    requires Ascending(s)
    ensures Ascending(Insert(x, s))
    decreases |s|
  {
    var r := Insert(x, s);
    if s == [] || x <= s[0] {
      assert r == [x] + s;
      assert forall k :: 0 <= k < |s| ==> x <= s[k] by {
        forall k | 0 <= k < |s| ensures x <= s[k] {
          assert s[0] <= s[k];
        }
      }
      AscendingCons(x, s);
    } else {
      var tail := s[1..];
      var rest := Insert(x, tail);
      assert r == [s[0]] + rest;
      AscendingTail(s);
      InsertAscending(x, tail);
      assert forall k :: 0 <= k < |tail| ==> s[0] <= tail[k] by {
        forall k | 0 <= k < |tail| ensures s[0] <= tail[k] {
          assert tail[k] == s[k + 1];
        }
      }
      LowerBound(s[0], rest, tail, x);
      AscendingCons(s[0], rest);
    }
  }

  /** Dropping the head of an ascending sequence leaves it ascending. */
  lemma AscendingTail(s: seq<int>)
    requires s != [] && Ascending(s)
    ensures Ascending(s[1..])
  {
    forall i, j | 0 <= i < j < |s[1..]| ensures s[1..][i] <= s[1..][j] {
      assert s[1..][i] == s[i + 1] && s[1..][j] == s[j + 1];
    }
  }

  /** A head no larger than any element of an ascending tail keeps the sequence ascending. */
  lemma AscendingCons(h: int, t: seq<int>)
    requires Ascending(t) && forall k :: 0 <= k < |t| ==> h <= t[k]
    ensures Ascending([h] + t)
  {
    var r := [h] + t;
    forall i, j | 0 <= i < j < |r| ensures r[i] <= r[j] {
      assert r[j] == t[j - 1];
      if i > 0 {
        assert r[i] == t[i - 1];
      }
    }
  }

  /** Every element of a sequence whose elements are those of `s` plus `x` is at least `lo`. */
  lemma LowerBound(lo: int, r: seq<int>, s: seq<int>, x: int)
    requires multiset(r) == multiset(s) + multiset{x}
    requires lo <= x && forall k :: 0 <= k < |s| ==> lo <= s[k]
    ensures forall k :: 0 <= k < |r| ==> lo <= r[k]
  {
    forall k | 0 <= k < |r| ensures lo <= r[k] {
      assert r[k] in multiset(r);
      if r[k] != x {
        assert r[k] in multiset(s);
      }
    }
  }

  /** The numeric sort `(a, b) => a - b`, here as an insertion sort. */
  function SortAscending(s: seq<int>): (r: seq<int>)
    ensures multiset(r) == multiset(s)
    ensures Ascending(r)
  {
    if s == [] then []
    else
      assert s == [s[0]] + s[1..];
      var sorted := SortAscending(s[1..]);
      InsertAscending(s[0], sorted);
      Insert(s[0], sorted)
  }

  /** Sorting keys without repetitions leaves them strictly ascending. */
  lemma SortDistinct(s: seq<int>)
    requires Distinct(s)
    ensures StrictlyAscending(SortAscending(s))
  {
    var r := SortAscending(s);
    forall i, j | 0 <= i < j < |r| ensures r[i] < r[j] {
      if r[i] == r[j] {
        TwoOccurrences(r, i, j);
        DistinctCount(s, r[i]);
        assert false;
      }
    }
  }

  lemma TwoOccurrences(r: seq<int>, i: nat, j: nat)
    requires i < j < |r| && r[i] == r[j]
    ensures multiset(r)[r[i]] >= 2
  {
    assert r == r[..j] + r[j..];
    assert r[i] in r[..j];
    assert r[j] in r[j..];
  }

  /** A sequence without repetitions holds each value at most once. */
  lemma {:induction false} DistinctCount(s: seq<int>, v: int)
    requires Distinct(s)
    ensures multiset(s)[v] <= 1
    decreases |s|
  {
    if s != [] {
      assert s == [s[0]] + s[1..];
      assert Distinct(s[1..]);
      DistinctCount(s[1..], v);
      if s[0] == v {
        assert v !in s[1..];
      }
    }
  }

  function Column(rows: seq<LogRow>, faceFilter: Option<string>, xs: seq<int>, resp: Option<Response>): seq<nat> {
    seq(|xs|, k requires 0 <= k < |xs| => Tally(rows, faceFilter, xs[k], resp))
  }

  /** What the aggregation returns for `rows` and `faceFilter`. */
  function Aggregated(rows: seq<LogRow>, faceFilter: Option<string>): Aggregation {
    var xs := SortAscending(LevelsInOrder(rows, faceFilter));
    Aggregation(xs, Column(rows, faceFilter, xs, None), Column(rows, faceFilter, xs, Some(Left)),
                Column(rows, faceFilter, xs, Some(Right)))
  }

  function Sum(s: seq<nat>): nat
    decreases |s|
  {
    if s == [] then 0 else Sum(s[..|s| - 1]) + s[|s| - 1]
  }

  // ---------------------------------------------------------------------------
  // The imperative aggregation

  lemma TallySnoc(rows: seq<LogRow>, i: nat, faceFilter: Option<string>, x: int, resp: Option<Response>)
    requires i < |rows|
    ensures Tally(rows[..i + 1], faceFilter, x, resp) ==
            Tally(rows[..i], faceFilter, x, resp) + (if Counted(rows[i], faceFilter, x, resp) then 1 else 0)
  {
    PrefixSnoc(rows, i);
  }

  lemma LevelsSnoc(rows: seq<LogRow>, i: nat, faceFilter: Option<string>)
    requires i < |rows|
    ensures LevelsInOrder(rows[..i + 1], faceFilter) ==
            var prev := LevelsInOrder(rows[..i], faceFilter);
            if Included(rows[i], faceFilter) && rows[i].gazeLevel !in prev then prev + [rows[i].gazeLevel] else prev
  {
    PrefixSnoc(rows, i);
  }

  /** A level that never appears has no answers counted at it. */
  lemma {:induction false} TallyAbsent(rows: seq<LogRow>, faceFilter: Option<string>, x: int, resp: Option<Response>)
    requires x !in LevelsInOrder(rows, faceFilter)
    ensures Tally(rows, faceFilter, x, resp) == 0
    decreases |rows|
  {
    if rows != [] {
      var prev := LevelsInOrder(rows[..|rows| - 1], faceFilter);
      assert x !in prev;
      TallyAbsent(rows[..|rows| - 1], faceFilter, x, resp);
    }
  }

  /**
   * One pass over the rows fills a map from level to counters, skipping rows
   * the face filter rejects; the keys are then sorted and read out as columns.
   */
  method AggregateByGazeLevel(rows: seq<LogRow>, faceFilter: Option<string>) returns (agg: Aggregation)
    ensures agg == Aggregated(rows, faceFilter)
  {
    var m, keys := CountByLevel(rows, faceFilter);
    var xs := SortAscending(keys);
    forall k | 0 <= k < |xs| ensures xs[k] in m {
      assert xs[k] in multiset(xs);
    }
    agg := ReadOut(m, xs);
    ReadOutColumns(rows, faceFilter, m, xs);
  }

  /** Reading a map that holds the tallies gives the columns of the specification. */
  lemma ReadOutColumns(rows: seq<LogRow>, faceFilter: Option<string>, m: map<int, Counts>, xs: seq<int>)
    requires forall k :: 0 <= k < |xs| ==> xs[k] in m
    requires forall x :: x in m ==> m[x] == CountsAt(rows, faceFilter, x)
    ensures ReadOut(m, xs) == Aggregation(xs, Column(rows, faceFilter, xs, None), Column(rows, faceFilter, xs, Some(Left)),
                                          Column(rows, faceFilter, xs, Some(Right)))
  {
    var agg := ReadOut(m, xs);
    assert agg.ns == Column(rows, faceFilter, xs, None);
    assert agg.lefts == Column(rows, faceFilter, xs, Some(Left));
    assert agg.rights == Column(rows, faceFilter, xs, Some(Right));
  }

  /** The counters of level x after the rows. */
  function CountsAt(rows: seq<LogRow>, faceFilter: Option<string>, x: int): Counts {
    Counts(Tally(rows, faceFilter, x, None), Tally(rows, faceFilter, x, Some(Left)),
           Tally(rows, faceFilter, x, Some(Right)))
  }

  /** The counters of a level after one more row at that level with answer `resp`. */
  function Bump(c: Counts, resp: Response): Counts {
    Counts(c.n + 1, c.left + (if resp == Left then 1 else 0), c.right + (if resp == Right then 1 else 0))
  }

  /** One more row bumps the counters of its own level and of no other. */
  lemma CountsAtSnoc(rows: seq<LogRow>, i: nat, faceFilter: Option<string>, x: int)
    requires i < |rows|
    ensures CountsAt(rows[..i + 1], faceFilter, x) ==
              if Included(rows[i], faceFilter) && rows[i].gazeLevel == x then
                Bump(CountsAt(rows[..i], faceFilter, x), rows[i].response)
              else CountsAt(rows[..i], faceFilter, x)
  {
    TallySnoc(rows, i, faceFilter, x, None);
    TallySnoc(rows, i, faceFilter, x, Some(Left));
    TallySnoc(rows, i, faceFilter, x, Some(Right));
  }

  /** The counting pass: the map from level to counters and its keys in insertion order. */
  method CountByLevel(rows: seq<LogRow>, faceFilter: Option<string>) returns (m: map<int, Counts>, keys: seq<int>)
    ensures keys == LevelsInOrder(rows, faceFilter)
    ensures forall x :: x in m <==> x in keys
    ensures forall x :: x in m ==> m[x] == CountsAt(rows, faceFilter, x)
  {
    m := map[];
    keys := [];
    for i := 0 to |rows|
      invariant keys == LevelsInOrder(rows[..i], faceFilter)
      invariant forall x :: x in m <==> x in keys
      invariant forall x :: x in m ==> m[x] == CountsAt(rows[..i], faceFilter, x)
    {
      var row := rows[i];
      LevelsSnoc(rows, i, faceFilter);
      if !Included(row, faceFilter) {
        forall y | y in m ensures m[y] == CountsAt(rows[..i + 1], faceFilter, y) {
          CountsAtSnoc(rows, i, faceFilter, y);
        }
        continue;
      }
      var x := row.gazeLevel;
      if x !in m {
        TallyAbsent(rows[..i], faceFilter, x, None);
        TallyAbsent(rows[..i], faceFilter, x, Some(Left));
        TallyAbsent(rows[..i], faceFilter, x, Some(Right));
        m := m[x := Counts(0, 0, 0)];
        keys := keys + [x];
      }
      ghost var before := m;
      var c := m[x];
      c := c.(n := c.n + 1);
      if row.response == Left {
        c := c.(left := c.left + 1);
      }
      if row.response == Right {
        c := c.(right := c.right + 1);
      }
      assert c == Bump(before[x], row.response);
      m := m[x := c];
      forall y | y in m ensures m[y] == CountsAt(rows[..i + 1], faceFilter, y) {
        CountsAtSnoc(rows, i, faceFilter, y);
        if y != x {
          assert m[y] == before[y];
        }
      }
    }
    assert rows[..|rows|] == rows;
  }

  /** The sorted levels with their counters looked up in the map. */
  function ReadOut(m: map<int, Counts>, xs: seq<int>): (agg: Aggregation)
    requires forall k :: 0 <= k < |xs| ==> xs[k] in m
    ensures agg.xs == xs && |agg.ns| == |agg.lefts| == |agg.rights| == |xs|
    ensures forall k :: 0 <= k < |xs| ==> m[xs[k]] == Counts(agg.ns[k], agg.lefts[k], agg.rights[k])
  {
    Aggregation(xs, seq(|xs|, k requires 0 <= k < |xs| => m[xs[k]].n),
                seq(|xs|, k requires 0 <= k < |xs| => m[xs[k]].left),
                seq(|xs|, k requires 0 <= k < |xs| => m[xs[k]].right))
  }

  // ---------------------------------------------------------------------------
  // Properties of the aggregation

  /** The levels in first-appearance order never repeat. */
  lemma {:induction false} LevelsDistinct(rows: seq<LogRow>, faceFilter: Option<string>)
    ensures Distinct(LevelsInOrder(rows, faceFilter))
    decreases |rows|
  {
    if rows != [] {
      LevelsDistinct(rows[..|rows| - 1], faceFilter);
    }
  }

  /** A level is listed exactly when some row passing the filter shows it. */
  lemma {:induction false} LevelsMembers(rows: seq<LogRow>, faceFilter: Option<string>)
    ensures forall x :: x in LevelsInOrder(rows, faceFilter) <==> x in LevelSet(rows, faceFilter)
    decreases |rows|
  {
    if rows != [] {
      var pre := rows[..|rows| - 1];
      var last := rows[|rows| - 1];
      LevelsMembers(pre, faceFilter);
      assert rows == pre + [last];
      assert LevelSet(rows, faceFilter) ==
             LevelSet(pre, faceFilter) + (if Included(last, faceFilter) then {last.gazeLevel} else {});
    }
  }

  /** A listed level has at least one answer counted at it. */
  lemma {:induction false} TallyPresent(rows: seq<LogRow>, faceFilter: Option<string>, x: int)
    requires x in LevelsInOrder(rows, faceFilter)
    ensures Tally(rows, faceFilter, x, None) >= 1
    decreases |rows|
  {
    var pre := rows[..|rows| - 1];
    if x in LevelsInOrder(pre, faceFilter) {
      TallyPresent(pre, faceFilter, x);
    }
  }

  /** Every counted answer is Left, Right or Direct. */
  lemma {:induction false} TallySplit(rows: seq<LogRow>, faceFilter: Option<string>, x: int)
    ensures Tally(rows, faceFilter, x, Some(Left)) + Tally(rows, faceFilter, x, Some(Right)) +
            Tally(rows, faceFilter, x, Some(Direct)) == Tally(rows, faceFilter, x, None)
    decreases |rows|
  {
    if rows != [] {
      TallySplit(rows[..|rows| - 1], faceFilter, x);
    }
  }

  /**
   * The shape of the result: levels strictly ascending, exactly the levels of
   * the rows that pass the filter, and columns as long as the level list.
   */
  lemma AggregatedLevels(rows: seq<LogRow>, faceFilter: Option<string>)
    ensures var a := Aggregated(rows, faceFilter);
            StrictlyAscending(a.xs) && |a.ns| == |a.xs| && |a.lefts| == |a.xs| && |a.rights| == |a.xs| &&
            (forall x :: x in a.xs <==> x in LevelSet(rows, faceFilter)) &&
            |a.xs| == |LevelSet(rows, faceFilter)|
  {
    var keys := LevelsInOrder(rows, faceFilter);
    var xs := SortAscending(keys);
    LevelsDistinct(rows, faceFilter);
    SortDistinct(keys);
    LevelsMembers(rows, faceFilter);
    forall x ensures x in xs <==> x in keys {
      assert x in xs <==> x in multiset(xs);
    }
    DistinctCard(xs, LevelSet(rows, faceFilter));
  }

  /** A sequence without repetitions is as long as the set of its elements. */
  lemma {:induction false} DistinctCard(s: seq<int>, elems: set<int>)
    requires Distinct(s) && forall x :: x in s <==> x in elems
    ensures |s| == |elems|
    decreases |s|
  {
    if s != [] {
      var last := s[|s| - 1];
      var pre := s[..|s| - 1];
      assert s == pre + [last];
      assert Distinct(pre);
      assert last !in pre;
      DistinctCard(pre, elems - {last});
    } else {
      assert forall x :: x in elems ==> x in s;
      assert elems == {};
    }
  }

  /** At every level: at least one row, and the Left and Right answers do not exceed the rows. */
  lemma PerLevelBound(rows: seq<LogRow>, faceFilter: Option<string>, k: nat)
    requires k < |Aggregated(rows, faceFilter).xs|
    ensures var a := Aggregated(rows, faceFilter);
            1 <= a.ns[k] && a.lefts[k] + a.rights[k] <= a.ns[k]
  {
    var a := Aggregated(rows, faceFilter);
    var keys := LevelsInOrder(rows, faceFilter);
    assert a.xs[k] in multiset(keys);
    TallyPresent(rows, faceFilter, a.xs[k]);
    TallySplit(rows, faceFilter, a.xs[k]);
  }

  /** The number of rows passing the filter whose level is one of `xs`. */
  function CountIn(rows: seq<LogRow>, faceFilter: Option<string>, xs: seq<int>): nat
    decreases |rows|
  {
    if rows == [] then 0
    else
      var last := rows[|rows| - 1];
      CountIn(rows[..|rows| - 1], faceFilter, xs) + (if Included(last, faceFilter) && last.gazeLevel in xs then 1 else 0)
  }

  lemma {:induction false} CountInSnoc(rows: seq<LogRow>, faceFilter: Option<string>, xs: seq<int>, x: int)
    requires x !in xs
    ensures CountIn(rows, faceFilter, xs + [x]) == CountIn(rows, faceFilter, xs) + Tally(rows, faceFilter, x, None)
    decreases |rows|
  {
    if rows != [] {
      CountInSnoc(rows[..|rows| - 1], faceFilter, xs, x);
    }
  }

  lemma {:induction false} SumColumn(rows: seq<LogRow>, faceFilter: Option<string>, xs: seq<int>)
    requires Distinct(xs)
    ensures Sum(Column(rows, faceFilter, xs, None)) == CountIn(rows, faceFilter, xs)
    decreases |xs|
  {
    if xs == [] {
      assert CountIn(rows, faceFilter, xs) == 0 by {
        CountInNone(rows, faceFilter);
      }
    } else {
      var pre := xs[..|xs| - 1];
      var col := Column(rows, faceFilter, xs, None);
      assert col[..|col| - 1] == Column(rows, faceFilter, pre, None);
      assert Distinct(pre);
      SumColumn(rows, faceFilter, pre);
      assert xs == pre + [xs[|xs| - 1]];
      CountInSnoc(rows, faceFilter, pre, xs[|xs| - 1]);
    }
  }

  lemma {:induction false} CountInNone(rows: seq<LogRow>, faceFilter: Option<string>)
    ensures CountIn(rows, faceFilter, []) == 0
    decreases |rows|
  {
    if rows != [] {
      CountInNone(rows[..|rows| - 1], faceFilter);
    }
  }

  lemma {:induction false} CountInAll(rows: seq<LogRow>, faceFilter: Option<string>, xs: seq<int>)
    requires forall r :: r in rows && Included(r, faceFilter) ==> r.gazeLevel in xs
    ensures CountIn(rows, faceFilter, xs) == IncludedCount(rows, faceFilter)
    decreases |rows|
  {
    if rows != [] {
      CountInAll(rows[..|rows| - 1], faceFilter, xs);
    }
  }

  /** Without a filter every row is counted. */
  lemma {:induction false} IncludedCountAll(rows: seq<LogRow>, faceFilter: Option<string>)
    requires faceFilter.None? || faceFilter == Some("")
    ensures IncludedCount(rows, faceFilter) == |rows|
    decreases |rows|
  {
    if rows != [] {
      IncludedCountAll(rows[..|rows| - 1], faceFilter);
    }
  }

  /**
   * Count conservation: the per-level counts add up to the number of rows that
   * pass the filter, which is every row when there is no filter.
   */
  lemma CountConservation(rows: seq<LogRow>, faceFilter: Option<string>)
    ensures Sum(Aggregated(rows, faceFilter).ns) == IncludedCount(rows, faceFilter)
    ensures faceFilter.None? ==> Sum(Aggregated(rows, faceFilter).ns) == |rows|
  {
    var a := Aggregated(rows, faceFilter);
    AggregatedLevels(rows, faceFilter);
    assert Distinct(a.xs);
    SumColumn(rows, faceFilter, a.xs);
    forall r | r in rows && Included(r, faceFilter) ensures r.gazeLevel in a.xs {
      assert r.gazeLevel in LevelSet(rows, faceFilter);
    }
    CountInAll(rows, faceFilter, a.xs);
    if faceFilter.None? {
      IncludedCountAll(rows, faceFilter);
    }
  }

  /** The rows that pass the filter, in their original order. */
  function IncludedRows(rows: seq<LogRow>, faceFilter: Option<string>): (r: seq<LogRow>)
    ensures forall row :: row in r ==> row in rows && Included(row, faceFilter)
    decreases |rows|
  {
    if rows == [] then []
    else
      var pre := IncludedRows(rows[..|rows| - 1], faceFilter);
      var last := rows[|rows| - 1];
      if Included(last, faceFilter) then pre + [last] else pre
  }

  lemma {:induction false} TallyFiltered(rows: seq<LogRow>, faceFilter: Option<string>, x: int, resp: Option<Response>)
    ensures Tally(rows, faceFilter, x, resp) == Tally(IncludedRows(rows, faceFilter), None, x, resp)
    decreases |rows|
  {
    if rows != [] {
      var inc := IncludedRows(rows[..|rows| - 1], faceFilter);
      TallyFiltered(rows[..|rows| - 1], faceFilter, x, resp);
      assert (inc + [rows[|rows| - 1]])[..|inc|] == inc;
    }
  }

  lemma {:induction false} LevelsFiltered(rows: seq<LogRow>, faceFilter: Option<string>)
    ensures LevelsInOrder(rows, faceFilter) == LevelsInOrder(IncludedRows(rows, faceFilter), None)
    decreases |rows|
  {
    if rows != [] {
      var inc := IncludedRows(rows[..|rows| - 1], faceFilter);
      LevelsFiltered(rows[..|rows| - 1], faceFilter);
      assert (inc + [rows[|rows| - 1]])[..|inc|] == inc;
    }
  }

  /** The aggregation sees only the rows that pass the filter: filtering first changes nothing. */
  lemma FilterFirst(rows: seq<LogRow>, faceFilter: Option<string>)
    ensures Aggregated(rows, faceFilter) == Aggregated(IncludedRows(rows, faceFilter), None)
  {
    var inc := IncludedRows(rows, faceFilter);
    LevelsFiltered(rows, faceFilter);
    var xs := SortAscending(LevelsInOrder(rows, faceFilter));
    ColumnFiltered(rows, faceFilter, xs, None);
    ColumnFiltered(rows, faceFilter, xs, Some(Left));
    ColumnFiltered(rows, faceFilter, xs, Some(Right));
  }

  /** One column computed with the filter equals that column over the kept rows, unfiltered. */
  lemma ColumnFiltered(rows: seq<LogRow>, faceFilter: Option<string>, xs: seq<int>, resp: Option<Response>)
    ensures Column(rows, faceFilter, xs, resp) == Column(IncludedRows(rows, faceFilter), None, xs, resp)
  {
    forall k | 0 <= k < |xs|
      ensures Tally(rows, faceFilter, xs[k], resp) == Tally(IncludedRows(rows, faceFilter), None, xs[k], resp)
    {
      TallyFiltered(rows, faceFilter, xs[k], resp);
    }
  }

  lemma {:induction false} IncludedRowsAppend(a: seq<LogRow>, b: seq<LogRow>, faceFilter: Option<string>)
    ensures IncludedRows(a + b, faceFilter) == IncludedRows(a, faceFilter) + IncludedRows(b, faceFilter)
    decreases |b|
  {
    if b == [] {
      assert a + b == a;
    } else {
      var pre := b[..|b| - 1];
      IncludedRowsAppend(a, pre, faceFilter);
      assert (a + b)[..|a + b| - 1] == a + pre;
      assert (a + b)[|a + b| - 1] == b[|b| - 1];
    }
  }

  /** A row that the face filter rejects has no effect on the result, wherever it stands. */
  lemma ExcludedRowIgnored(pre: seq<LogRow>, row: LogRow, post: seq<LogRow>, faceFilter: Option<string>)
    requires !Included(row, faceFilter)
    ensures Aggregated(pre + [row] + post, faceFilter) == Aggregated(pre + post, faceFilter)
  {
    IncludedRowsAppend(pre + [row], post, faceFilter);
    IncludedRowsAppend(pre, [row], faceFilter);
    IncludedRowsAppend(pre, post, faceFilter);
    assert IncludedRows([row], faceFilter) == [] by {
      assert [row][..0] == [];
    }
    FilterFirst(pre + [row] + post, faceFilter);
    FilterFirst(pre + post, faceFilter);
  }

  // ---------------------------------------------------------------------------
  // Independence from row order

  lemma {:induction false} TallyAppend(a: seq<LogRow>, b: seq<LogRow>, faceFilter: Option<string>, x: int,
                                       resp: Option<Response>)
    ensures Tally(a + b, faceFilter, x, resp) == Tally(a, faceFilter, x, resp) + Tally(b, faceFilter, x, resp)
    decreases |b|
  {
    if b == [] {
      assert a + b == a;
    } else {
      TallyAppend(a, b[..|b| - 1], faceFilter, x, resp);
      assert (a + b)[..|a + b| - 1] == a + b[..|b| - 1];
    }
  }

  /** Each count depends only on which rows there are, not on their order. */
  lemma {:induction false} TallyPermutation(rows: seq<LogRow>, rows': seq<LogRow>, faceFilter: Option<string>, x: int,
                                            resp: Option<Response>)
    requires multiset(rows) == multiset(rows')
    ensures Tally(rows, faceFilter, x, resp) == Tally(rows', faceFilter, x, resp)
    decreases |rows|
  {
    if rows == [] {
      assert |rows'| == |multiset(rows')| == 0;
    } else {
      var last := rows[|rows| - 1];
      var pre := rows[..|rows| - 1];
      var i := MatchLast(rows, rows');
      var rest := rows'[..i] + rows'[i + 1..];
      TallyPermutation(pre, rest, faceFilter, x, resp);
      TallyWithout(rows', i, faceFilter, x, resp);
    }
  }

  /** Taking row i out of a sequence takes its contribution out of each count. */
  lemma TallyWithout(rows: seq<LogRow>, i: nat, faceFilter: Option<string>, x: int, resp: Option<Response>)
    requires i < |rows|
    ensures Tally(rows, faceFilter, x, resp) ==
            Tally(rows[..i] + rows[i + 1..], faceFilter, x, resp) + (if Counted(rows[i], faceFilter, x, resp) then 1 else 0)
  {
    var front, back := rows[..i], rows[i + 1..];
    assert rows == (front + [rows[i]]) + back;
    TallyAppend(front + [rows[i]], back, faceFilter, x, resp);
    TallyAppend(front, back, faceFilter, x, resp);
    TallySnoc(rows, i, faceFilter, x, resp);
    assert rows[..i + 1] == front + [rows[i]];
  }

  /** In a strictly ascending sequence the head is below every other element, which all sit in the tail. */
  lemma AscendingHead(a: seq<int>, x: int)
    requires StrictlyAscending(a) && a != [] && x in a
    ensures a[0] <= x && (x != a[0] ==> x in a[1..])
  {
    var k :| 0 <= k < |a| && a[k] == x;
    if k > 0 {
      assert a[1..][k - 1] == x;
    }
  }

  /** Two strictly ascending sequences with the same elements are equal. */
  lemma {:induction false} StrictlyAscendingUnique(a: seq<int>, b: seq<int>)
    requires StrictlyAscending(a) && StrictlyAscending(b)
    requires forall x :: x in a <==> x in b
    ensures a == b
    decreases |a|
  {
    if a != [] {
      assert a[0] in a;
    }
    if b != [] {
      assert b[0] in b;
    }
    if a != [] && b != [] {
      AscendingHead(a, b[0]);
      AscendingHead(b, a[0]);
      forall x ensures x in a[1..] <==> x in b[1..] {
        if x in a[1..] {
          assert x in a && x != a[0];
          AscendingHead(b, x);
        }
        if x in b[1..] {
          assert x in b && x != b[0];
          AscendingHead(a, x);
        }
      }
      assert StrictlyAscending(a[1..]) && StrictlyAscending(b[1..]);
      StrictlyAscendingUnique(a[1..], b[1..]);
      assert a == [a[0]] + a[1..] && b == [b[0]] + b[1..];
    }
  }

  /** Rows with the same multiset have the same levels. */
  lemma LevelSetPermutation(rows: seq<LogRow>, rows': seq<LogRow>, faceFilter: Option<string>)
    requires multiset(rows) == multiset(rows')
    ensures LevelSet(rows, faceFilter) == LevelSet(rows', faceFilter)
  {
    forall r ensures r in rows <==> r in rows' {
      assert r in rows <==> r in multiset(rows);
      assert r in rows' <==> r in multiset(rows');
    }
  }

  lemma ColumnPermutation(rows: seq<LogRow>, rows': seq<LogRow>, faceFilter: Option<string>, xs: seq<int>,
                          resp: Option<Response>)
    requires multiset(rows) == multiset(rows')
    ensures Column(rows, faceFilter, xs, resp) == Column(rows', faceFilter, xs, resp)
  {
    forall k | 0 <= k < |xs|
      ensures Tally(rows, faceFilter, xs[k], resp) == Tally(rows', faceFilter, xs[k], resp)
    {
      TallyPermutation(rows, rows', faceFilter, xs[k], resp);
    }
  }

  /** The aggregation does not depend on the order of the rows. */
  lemma AggregatedOrderFree(rows: seq<LogRow>, rows': seq<LogRow>, faceFilter: Option<string>)
    requires multiset(rows) == multiset(rows')
    ensures Aggregated(rows, faceFilter) == Aggregated(rows', faceFilter)
  {
    var xs := Aggregated(rows, faceFilter).xs;
    AggregatedLevels(rows, faceFilter);
    AggregatedLevels(rows', faceFilter);
    LevelSetPermutation(rows, rows', faceFilter);
    StrictlyAscendingUnique(xs, Aggregated(rows', faceFilter).xs);
    ColumnPermutation(rows, rows', faceFilter, xs, None);
    ColumnPermutation(rows, rows', faceFilter, xs, Some(Left));
    ColumnPermutation(rows, rows', faceFilter, xs, Some(Right));
  }
}
