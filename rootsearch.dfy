/**
 * Root finding for the boundary estimate: bisection inside one bracket, a
 * left-to-right scan over the gaze range that bisects every bracket whose
 * end values differ in sign, and the rule that picks one root out of the
 * candidates found. The function searched is any total real function;
 * floating point is replaced by exact reals.
 */
module RootSearch {
  import opened Wrappers

  /** Bisection stops early once |f(mid)| is below this. */
  const TOL: real := 0.0001
  /** Bisection halves the bracket at most this many times. */
  const MAX_ITER: nat := 80
  /** Grid spacing of the scan. */
  const STEP: real := 0.25
  /** Allowance added to the upper end of the scan range. */
  const SLACK: real := 0.000000001

  function Abs(x: real): (r: real)
    ensures r >= 0.0 && (r == x || r == -x)
  {
    if x < 0.0 then -x else x
  }

  function Pow2(k: nat): (r: real)
    ensures r >= 1.0
  {
    if k == 0 then 1.0 else 2.0 * Pow2(k - 1)
  }

  /** x lies in the closed interval spanned by a and b, in either order. */
  predicate Between(x: real, a: real, b: real) {
    (a <= x <= b) || (b <= x <= a)
  }

  /** Two numbers of which neither is strictly on the same side of zero as the other. */
  predicate OppositeSigns(u: real, v: real) {
    (u <= 0.0 && v >= 0.0) || (u >= 0.0 && v <= 0.0)
  }

  /** f changes sign (or vanishes) between lo and hi. */
  predicate Bracket(f: real -> real, lo: real, hi: real) {
    OppositeSigns(f(lo), f(hi))
  }

  /**
   * What bisection on [a, b] may return: the end a when f vanishes there, else
   * the end b when f vanishes there, else a point of a sign-change bracket
   * inside [a, b] at which |f| < tol, or the midpoint of such a bracket once it
   * has been halved maxIter times.
   */
  ghost predicate Refined(f: real -> real, a: real, b: real, c: real, tol: real, maxIter: nat) {
    if f(a) == 0.0 then c == a
    else if f(b) == 0.0 then c == b
    else
      exists lo, hi {:trigger Bracket(f, lo, hi)} :: Between(lo, a, b) && Between(hi, a, b) && Bracket(f, lo, hi) && Between(c, lo, hi) &&
                       (Abs(f(c)) < tol || (c == (lo + hi) / 2.0 && (hi - lo) * Pow2(maxIter) == b - a))
  }

  /** The product test of the bisection is the sign test. */
  lemma ProductSign(u: real, v: real)
    ensures u * v <= 0.0 <==> OppositeSigns(u, v)
  {
    if u > 0.0 && v > 0.0 {
      assert u * v > 0.0;
    } else if u < 0.0 && v < 0.0 {
      assert u * v == (-u) * (-v);
      assert u * v > 0.0;
    } else if u >= 0.0 && v <= 0.0 {
      assert u * v == -(u * (-v));
    } else {
      assert u * v == -((-u) * v);
    }
  }

  /** Halving the bracket doubles the power of two that scales it back to b - a. */
  lemma Halve(lo: real, hi: real, i: nat, width: real)
    requires (hi - lo) * Pow2(i) == width
    ensures ((lo + hi) / 2.0 - lo) * Pow2(i + 1) == width
    ensures (hi - (lo + hi) / 2.0) * Pow2(i + 1) == width
  {
    assert (lo + hi) / 2.0 - lo == (hi - lo) / 2.0;
    assert hi - (lo + hi) / 2.0 == (hi - lo) / 2.0;
    assert ((hi - lo) / 2.0) * (2.0 * Pow2(i)) == (hi - lo) * Pow2(i);
  }

  lemma MidpointBetween(lo: real, hi: real, a: real, b: real)
    requires Between(lo, a, b) && Between(hi, a, b)
    ensures Between((lo + hi) / 2.0, a, b) && Between((lo + hi) / 2.0, lo, hi)
  {
  }

  /**
   * Bisection on [a, b]. An end where f vanishes is returned at once; ends of
   * the same strict sign give no root. Otherwise the bracket [lo, hi] is
   * halved, keeping a sign change between its ends, until |f(mid)| < tol or
   * maxIter halvings are done; then the midpoint is returned. The scan calls
   * it with the defaults TOL and MAX_ITER.
   */
  method FindRootBisection(f: real -> real, a: real, b: real, tol: real, maxIter: nat)
    returns (root: Option<real>, ghost bracketLo: real, ghost bracketHi: real)
    ensures f(a) == 0.0 ==> root == Some(a)
    ensures f(a) != 0.0 && f(b) == 0.0 ==> root == Some(b)
    ensures root.None? <==> f(a) * f(b) > 0.0
    ensures root.Some? ==> Between(root.value, a, b)
    ensures root.Some? && f(a) != 0.0 && f(b) != 0.0 ==>
              Between(bracketLo, a, b) && Between(bracketHi, a, b) && Bracket(f, bracketLo, bracketHi) &&
              Between(root.value, bracketLo, bracketHi) &&
              (Abs(f(root.value)) < tol ||
               (root.value == (bracketLo + bracketHi) / 2.0 &&
                (bracketHi - bracketLo) * Pow2(maxIter) == b - a))
  {
    bracketLo, bracketHi := a, b;
    var lo, hi := a, b;
    var fa, fb := f(a), f(b);
    if fa == 0.0 {
      return Some(a), a, b;
    }
    if fb == 0.0 {
      return Some(b), a, b;
    }
    ProductSign(fa, fb);
    if fa * fb > 0.0 {
      return None, a, b;
    }
    var i := 0;
    while i < maxIter
      invariant 0 <= i <= maxIter
      invariant Between(lo, a, b) && Between(hi, a, b)
      invariant fa == f(lo) && fa != 0.0
      invariant Bracket(f, lo, hi)
      invariant (hi - lo) * Pow2(i) == b - a
    {
      var mid := (lo + hi) / 2.0;
      MidpointBetween(lo, hi, a, b);
      var fm := f(mid);
      if Abs(fm) < tol {
        return Some(mid), lo, hi;
      }
      Halve(lo, hi, i, b - a);
      ProductSign(fa, fm);
      if fa * fm <= 0.0 {
        hi := mid;
        fb := fm;
      } else {
        lo := mid;
        fa := fm;
      }
      i := i + 1;
    }
    MidpointBetween(lo, hi, a, b);
    root, bracketLo, bracketHi := Some((lo + hi) / 2.0), lo, hi;
  }

  /** Whatever bisection returns on [a, b] is a refined root of that cell. */
  lemma BisectionRefined(f: real -> real, a: real, b: real, root: real, lo: real, hi: real, tol: real, maxIter: nat)
    requires f(a) == 0.0 ==> root == a
    requires f(a) != 0.0 && f(b) == 0.0 ==> root == b
    requires f(a) != 0.0 && f(b) != 0.0 ==>
               Between(lo, a, b) && Between(hi, a, b) && Bracket(f, lo, hi) && Between(root, lo, hi) &&
               (Abs(f(root)) < tol || (root == (lo + hi) / 2.0 && (hi - lo) * Pow2(maxIter) == b - a))
    ensures Refined(f, a, b, root, tol, maxIter)
  {
  }

  // ---------------------------------------------------------------------------
  // The scan

  /** The k-th point of the scan grid. */
  function Grid(gazeMin: real, k: nat): real {
    gazeMin + (k as real) * STEP
  }

  /** How many grid points after gazeMin lie at or below gazeMax + SLACK. */
  function Steps(gazeMin: real, gazeMax: real): nat {
    var span := gazeMax + SLACK - gazeMin;
    if span < 0.0 then 0 else (span / STEP).Floor
  }

  lemma GridBound(gazeMin: real, gazeMax: real, k: nat)
    requires 1 <= k
    ensures Grid(gazeMin, k) <= gazeMax + SLACK <==> k <= Steps(gazeMin, gazeMax)
  {
    var span := gazeMax + SLACK - gazeMin;
    if span >= 0.0 {
      var q := span / STEP;
      assert Grid(gazeMin, k) <= gazeMax + SLACK <==> (k as real) <= q;
      assert (q.Floor as real) <= q < (q.Floor as real) + 1.0;
    }
  }

  /** The scan bisects the k-th grid cell: f changes sign (or vanishes) across it. */
  predicate SignChangeAt(f: real -> real, gazeMin: real, k: nat) {
    1 <= k && Bracket(f, Grid(gazeMin, k - 1), Grid(gazeMin, k))
  }

  /**
   * What the scan collects: one root per cell with a sign change, left to
   * right, each the bisection result on its cell.
   */
  ghost predicate ScanOutcome(f: real -> real, gazeMin: real, gazeMax: real, candidates: seq<real>, cells: seq<nat>) {
    |cells| == |candidates| &&
    (forall j :: 0 <= j < |cells| ==>
       1 <= cells[j] <= Steps(gazeMin, gazeMax) && SignChangeAt(f, gazeMin, cells[j]) &&
       Between(candidates[j], Grid(gazeMin, cells[j] - 1), Grid(gazeMin, cells[j]))) &&
    CandidatesRefined(f, gazeMin, candidates, cells) &&
    (forall i, j :: 0 <= i < j < |cells| ==> cells[i] < cells[j]) &&
    (forall k :: 1 <= k <= Steps(gazeMin, gazeMax) && SignChangeAt(f, gazeMin, k) ==> k in cells)
  }

  /**
   * Walks the grid gazeMin, gazeMin + STEP, ... up to gazeMax + SLACK; every
   * cell whose end values differ in sign (or touch zero) is bisected and the
   * root found becomes a candidate; finally one candidate is selected. The
   * ghost `cells` names, for each candidate, the grid cell it came from.
   */
  method ScanForRoot(f: real -> real, gazeMin: real, gazeMax: real, preferNegative: bool)
    returns (r: Option<real>, ghost candidates: seq<real>, ghost cells: seq<nat>)
    ensures ScanOutcome(f, gazeMin, gazeMax, candidates, cells)
    ensures NonDecreasing(candidates)
    ensures r == SelectRoot(candidates, preferNegative)
    ensures r.None? <==> forall k :: 1 <= k <= Steps(gazeMin, gazeMax) ==> !SignChangeAt(f, gazeMin, k)
  {
    var found: seq<real>;
    found, cells := CollectCandidates(f, gazeMin, gazeMax);
    candidates := found;
    r := SelectRoot(found, preferNegative);
  }

  /**
   * What the scan has collected once the cells 1..k-1 are done: one candidate
   * per sign-change cell among them, left to right, each within its cell.
   */
  ghost predicate ScanSoFar(f: real -> real, gazeMin: real, found: seq<real>, cells: seq<nat>, k: nat) {
    |cells| == |found| &&
    (forall j :: 0 <= j < |cells| ==>
       1 <= cells[j] < k && SignChangeAt(f, gazeMin, cells[j]) &&
       Between(found[j], Grid(gazeMin, cells[j] - 1), Grid(gazeMin, cells[j]))) &&
    (forall i, j :: 0 <= i < j < |cells| ==> cells[i] < cells[j]) &&
    (forall c :: 1 <= c < k && SignChangeAt(f, gazeMin, c) ==> c in cells)
  }

  /** Each candidate is the bisection result on the grid cell it came from. */
  ghost predicate CandidatesRefined(f: real -> real, gazeMin: real, found: seq<real>, cells: seq<nat>) {
    |found| == |cells| &&
    forall j :: 0 <= j < |cells| ==>
      1 <= cells[j] && Refined(f, Grid(gazeMin, cells[j] - 1), Grid(gazeMin, cells[j]), found[j], TOL, MAX_ITER)
  }

  lemma RefinedSnoc(f: real -> real, gazeMin: real, found: seq<real>, cells: seq<nat>, k: nat, root: real)
    requires CandidatesRefined(f, gazeMin, found, cells) && 1 <= k
    requires Refined(f, Grid(gazeMin, k - 1), Grid(gazeMin, k), root, TOL, MAX_ITER)
    ensures CandidatesRefined(f, gazeMin, found + [root], cells + [k])
  {
    var found', cells' := found + [root], cells + [k];
    forall j | 0 <= j < |cells'|
      ensures 1 <= cells'[j] && Refined(f, Grid(gazeMin, cells'[j] - 1), Grid(gazeMin, cells'[j]), found'[j], TOL, MAX_ITER)
    {
      if j < |cells| {
        assert cells'[j] == cells[j] && found'[j] == found[j];
      }
    }
  }

  /** Cell k without a sign change adds nothing. */
  lemma ScanSkip(f: real -> real, gazeMin: real, found: seq<real>, cells: seq<nat>, k: nat)
    requires ScanSoFar(f, gazeMin, found, cells, k) && !SignChangeAt(f, gazeMin, k)
    ensures ScanSoFar(f, gazeMin, found, cells, k + 1)
  {
  }

  /** Cell k with a sign change adds its root. */
  lemma ScanHit(f: real -> real, gazeMin: real, found: seq<real>, cells: seq<nat>, k: nat, root: real)
    requires ScanSoFar(f, gazeMin, found, cells, k) && 1 <= k && SignChangeAt(f, gazeMin, k)
    requires Between(root, Grid(gazeMin, k - 1), Grid(gazeMin, k))
    ensures ScanSoFar(f, gazeMin, found + [root], cells + [k], k + 1)
  {
    var found', cells' := found + [root], cells + [k];
    forall j | 0 <= j < |cells'|
      ensures 1 <= cells'[j] < k + 1 && SignChangeAt(f, gazeMin, cells'[j]) &&
              Between(found'[j], Grid(gazeMin, cells'[j] - 1), Grid(gazeMin, cells'[j]))
    {
      if j < |cells| {
        assert cells'[j] == cells[j] && found'[j] == found[j];
      }
    }
    forall i, j | 0 <= i < j < |cells'| ensures cells'[i] < cells'[j] {
      assert cells'[i] == cells[i];
      if j < |cells| {
        assert cells'[j] == cells[j];
      }
    }
    forall c | 1 <= c < k + 1 && SignChangeAt(f, gazeMin, c) ensures c in cells' {
      if c < k {
        assert c in cells;
      } else {
        assert cells'[|cells|] == c;
      }
    }
  }

  /**
   * Bisection of one grid cell whose end values differ in sign (or touch
   * zero), with the defaults TOL and MAX_ITER: it always finds a root.
   */
  method BisectCell(f: real -> real, lo: real, hi: real) returns (root: real)
    requires Bracket(f, lo, hi)
    ensures Between(root, lo, hi) && Refined(f, lo, hi, root, TOL, MAX_ITER)
  {
    ProductSign(f(lo), f(hi));
    var found, bracketLo, bracketHi := FindRootBisection(f, lo, hi, TOL, MAX_ITER);
    BisectionRefined(f, lo, hi, found.value, bracketLo, bracketHi, TOL, MAX_ITER);
    root := found.value;
  }

  /** The loop of the scan: previous point and value carried along, candidates appended. */
  method CollectCandidates(f: real -> real, gazeMin: real, gazeMax: real)
    returns (found: seq<real>, ghost cells: seq<nat>)
    ensures ScanOutcome(f, gazeMin, gazeMax, found, cells)
    ensures NonDecreasing(found)
    ensures found == [] <==> forall k :: 1 <= k <= Steps(gazeMin, gazeMax) ==> !SignChangeAt(f, gazeMin, k)
  {
    var prevX := gazeMin;
    var prevF := f(prevX);
    found := [];
    cells := [];
    ghost var k: nat := 1;
    var x := gazeMin + STEP;
    while x <= gazeMax + SLACK
      invariant 1 <= k <= Steps(gazeMin, gazeMax) + 1
      invariant x == Grid(gazeMin, k) && prevX == Grid(gazeMin, k - 1) && prevF == f(prevX)
      invariant ScanSoFar(f, gazeMin, found, cells, k)
      invariant CandidatesRefined(f, gazeMin, found, cells)
      decreases Steps(gazeMin, gazeMax) + 1 - k
    {
      GridBound(gazeMin, gazeMax, k);
      var fx := f(x);
      ProductSign(prevF, fx);
      if prevF * fx <= 0.0 {
        var root := BisectCell(f, prevX, x);
        ScanHit(f, gazeMin, found, cells, k, root);
        RefinedSnoc(f, gazeMin, found, cells, k, root);
        found := found + [root];
        cells := cells + [k];
      } else {
        ScanSkip(f, gazeMin, found, cells, k);
      }
      prevX := x;
      prevF := fx;
      x := x + STEP;
      k := k + 1;
    }
    GridBound(gazeMin, gazeMax, k);
    ScanDone(f, gazeMin, gazeMax, found, cells, k);
  }

  /** Once every cell of the grid is done, what was collected is the scan's outcome. */
  lemma ScanDone(f: real -> real, gazeMin: real, gazeMax: real, found: seq<real>, cells: seq<nat>, k: nat)
    requires ScanSoFar(f, gazeMin, found, cells, k) && CandidatesRefined(f, gazeMin, found, cells)
    requires k == Steps(gazeMin, gazeMax) + 1
    ensures ScanOutcome(f, gazeMin, gazeMax, found, cells) && NonDecreasing(found)
    ensures found == [] <==> forall c :: 1 <= c <= Steps(gazeMin, gazeMax) ==> !SignChangeAt(f, gazeMin, c)
  {
    CellsOrdered(f, gazeMin, gazeMax, found, cells);
    NoCandidates(f, gazeMin, gazeMax, found, cells);
  }

  /** No candidate exactly when no cell of the grid shows a sign change. */
  lemma NoCandidates(f: real -> real, gazeMin: real, gazeMax: real, candidates: seq<real>, cells: seq<nat>)
    requires ScanOutcome(f, gazeMin, gazeMax, candidates, cells)
    ensures candidates == [] <==> forall k :: 1 <= k <= Steps(gazeMin, gazeMax) ==> !SignChangeAt(f, gazeMin, k)
  {
    if candidates != [] {
      assert SignChangeAt(f, gazeMin, cells[0]);
    }
  }

  /** Roots taken from cells further right are no smaller. */
  lemma CellsOrdered(f: real -> real, gazeMin: real, gazeMax: real, candidates: seq<real>, cells: seq<nat>)
    requires ScanOutcome(f, gazeMin, gazeMax, candidates, cells)
    ensures NonDecreasing(candidates)
  {
    forall i, j | 0 <= i < j < |candidates| ensures candidates[i] <= candidates[j] {
      assert Grid(gazeMin, cells[i]) <= Grid(gazeMin, cells[j] - 1);
    }
  }

  // ---------------------------------------------------------------------------
  // Choosing among the candidates

  /** The candidates that are at most zero, in order. */
  function NonPositive(s: seq<real>): (r: seq<real>)
    ensures forall v :: v in r <==> v in s && v <= 0.0
    decreases |s|
  {
    if s == [] then []
    else
      var rest := NonPositive(s[..|s| - 1]);
      assert forall v :: v in s <==> v in s[..|s| - 1] || v == s[|s| - 1];
      if s[|s| - 1] <= 0.0 then rest + [s[|s| - 1]] else rest
  }

  /** The candidates that are at least zero, in order. */
  function NonNegative(s: seq<real>): (r: seq<real>)
    ensures forall v :: v in r <==> v in s && v >= 0.0
    decreases |s|
  {
    if s == [] then []
    else
      var rest := NonNegative(s[..|s| - 1]);
      assert forall v :: v in s <==> v in s[..|s| - 1] || v == s[|s| - 1];
      if s[|s| - 1] >= 0.0 then rest + [s[|s| - 1]] else rest
  }

  /**
   * The selection rule. For the left boundary (preferNegative): the last
   * candidate at most zero, else the first candidate. For the right boundary:
   * the first candidate at least zero, else the last candidate. No candidate,
   * no root.
   */
  function SelectRoot(candidates: seq<real>, preferNegative: bool): (r: Option<real>)
    ensures r.None? <==> candidates == []
    ensures r.Some? ==> r.value in candidates
  {
    if candidates == [] then None
    else if preferNegative then
      var negs := NonPositive(candidates);
      if |negs| > 0 then Some(negs[|negs| - 1]) else Some(candidates[0])
    else
      var poss := NonNegative(candidates);
      if |poss| > 0 then Some(poss[0]) else Some(candidates[|candidates| - 1])
  }

  predicate NonDecreasing(s: seq<real>) {
    forall i, j :: 0 <= i < j < |s| ==> s[i] <= s[j]
  }

  /** NonPositive keeps the candidates' order: each kept value sits at a later position than the ones before it. */
  lemma {:induction false} NonPositiveLast(s: seq<real>)
    requires NonDecreasing(s) && NonPositive(s) != []
    ensures var negs := NonPositive(s); forall v :: v in s && v <= 0.0 ==> v <= negs[|negs| - 1]
    decreases |s|
  {
    var pre := s[..|s| - 1];
    var last := s[|s| - 1];
    if last <= 0.0 {
      forall v | v in s && v <= 0.0 ensures v <= last {
        var k :| 0 <= k < |s| && s[k] == v;
      }
    } else {
      forall v | v in s && v <= 0.0 ensures v in pre {
        assert v != last;
        assert s == pre + [last];
      }
      NonPositiveLast(pre);
    }
  }

  /** The first value NonNegative keeps sits after the negative values before it. */
  lemma {:induction false} FirstNonNegative(s: seq<real>) returns (k: nat)
    requires NonNegative(s) != []
    ensures k < |s| && s[k] == NonNegative(s)[0]
    ensures forall i :: 0 <= i < k ==> s[i] < 0.0
    decreases |s|
  {
    var pre := s[..|s| - 1];
    if NonNegative(pre) == [] {
      k := |s| - 1;
      forall i | 0 <= i < k ensures s[i] < 0.0 {
        assert s[i] in pre;
      }
    } else {
      k := FirstNonNegative(pre);
    }
  }

  lemma NonNegativeFirst(s: seq<real>)
    requires NonDecreasing(s) && NonNegative(s) != []
    ensures var poss := NonNegative(s); forall v :: v in s && v >= 0.0 ==> poss[0] <= v
  {
    var k := FirstNonNegative(s);
    forall v | v in s && v >= 0.0 ensures s[k] <= v {
      var m :| 0 <= m < |s| && s[m] == v;
      if m < k {
        assert false;
      }
    }
  }

  /**
   * The left boundary with candidates in ascending order: the largest
   * candidate at most zero when there is one, and otherwise the smallest
   * candidate, all candidates then being positive.
   */
  lemma SelectLeftBoundary(candidates: seq<real>)
    requires NonDecreasing(candidates) && candidates != []
    ensures var r := SelectRoot(candidates, true).value;
            r in candidates &&
            ((exists v :: v in candidates && v <= 0.0) ==>
               r <= 0.0 && forall v :: v in candidates && v <= 0.0 ==> v <= r) &&
            ((forall v :: v in candidates ==> v > 0.0) ==>
               r == candidates[0] && forall v :: v in candidates ==> r <= v)
  {
    var negs := NonPositive(candidates);
    if negs != [] {
      NonPositiveLast(candidates);
      assert negs[|negs| - 1] in negs;
    } else {
      forall v | v in candidates ensures candidates[0] <= v {
        var k :| 0 <= k < |candidates| && candidates[k] == v;
      }
    }
  }

  /**
   * The right boundary with candidates in ascending order: the smallest
   * candidate at least zero when there is one, and otherwise the largest
   * candidate, all candidates then being negative.
   */
  lemma SelectRightBoundary(candidates: seq<real>)
    requires NonDecreasing(candidates) && candidates != []
    ensures var r := SelectRoot(candidates, false).value;
            r in candidates &&
            ((exists v :: v in candidates && v >= 0.0) ==>
               r >= 0.0 && forall v :: v in candidates && v >= 0.0 ==> r <= v) &&
            ((forall v :: v in candidates ==> v < 0.0) ==>
               r == candidates[|candidates| - 1] && forall v :: v in candidates ==> v <= r)
  {
    var poss := NonNegative(candidates);
    if poss != [] {
      NonNegativeFirst(candidates);
      assert poss[0] in poss;
    } else {
      forall v | v in candidates ensures v <= candidates[|candidates| - 1] {
        var k :| 0 <= k < |candidates| && candidates[k] == v;
      }
    }
  }
}
