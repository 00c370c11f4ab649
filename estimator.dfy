/**
 * The end-of-task estimate of the cone of direct gaze (CoDG): aggregate the
 * responses, refuse too little data, fit one logistic curve for "Left" and one
 * for "Right" answers, find where each curve meets the implied "Direct"
 * probability, and report the width between the two crossings. The curve
 * fitting and the sigmoid are parameters: the model says what is done with
 * their results, not how they are computed.
 */
module Estimator {
  import opened Wrappers
  import opened Records
  import opened Aggregate
  import opened RootSearch

  /** Fewer distinct gaze levels than this is insufficient data. */
  const MIN_LEVELS: nat := 5
  /** Fewer counted trials than this is insufficient data. */
  const MIN_TRIALS: nat := 30

  /** Intercept and slope of a fitted logistic curve. */
  datatype Fit = Fit(b0: real, b1: real)

  /** The status of an estimate. */
  datatype Note = InsufficientData | FitFailed | IntersectionNotFound | Ok

  datatype Estimate = Estimate(codg: Option<real>, xLeft: Option<real>, xRight: Option<real>, note: Note,
                               fitL: Option<Fit>, fitR: Option<Fit>)

  /**
   * The curve fit, given gaze levels, counts of one answer and counts of all
   * answers per level; None when the fit fails.
   */
  type Fitter = (seq<int>, seq<nat>, seq<nat>) -> Option<Fit>

  /** The fitted probability of an answer at gaze x. */
  function Prob(fit: Fit, sigmoid: real -> real, x: real): real {
    sigmoid(fit.b0 + fit.b1 * x)
  }

  /**
   * Zero where P(Left) equals P(Direct) = 1 - P(Left) - P(Right), that is where
   * 2 P(Left) + P(Right) - 1 vanishes.
   */
  function LeftGap(fitL: Fit, fitR: Fit, sigmoid: real -> real): real -> real {
    x => 2.0 * Prob(fitL, sigmoid, x) + Prob(fitR, sigmoid, x) - 1.0
  }

  /** Zero where P(Right) equals P(Direct), that is where P(Left) + 2 P(Right) - 1 vanishes. */
  function RightGap(fitL: Fit, fitR: Fit, sigmoid: real -> real): real -> real {
    x => Prob(fitL, sigmoid, x) + 2.0 * Prob(fitR, sigmoid, x) - 1.0
  }

  /** The crossings are the points where an answer is as likely as "Direct". */
  lemma GapsAreCrossings(fitL: Fit, fitR: Fit, sigmoid: real -> real, x: real)
    ensures var pL, pR := Prob(fitL, sigmoid, x), Prob(fitR, sigmoid, x);
            (LeftGap(fitL, fitR, sigmoid)(x) == 0.0 <==> pL == 1.0 - pL - pR) &&
            (RightGap(fitL, fitR, sigmoid)(x) == 0.0 <==> pR == 1.0 - pL - pR)
  {
  }

  /** Enough data to fit: at least MIN_LEVELS distinct levels and MIN_TRIALS counted rows. */
  predicate Sufficient(rows: seq<LogRow>, faceFilter: Option<string>) {
    |LevelSet(rows, faceFilter)| >= MIN_LEVELS && IncludedCount(rows, faceFilter) >= MIN_TRIALS
  }

  /**
   * The gate as computed, on the aggregated columns (number of levels, sum of
   * the counts), is the gate on the rows themselves.
   */
  lemma GateOnAggregate(rows: seq<LogRow>, faceFilter: Option<string>)
    ensures var a := Aggregated(rows, faceFilter);
            (|a.xs| >= MIN_LEVELS && Sum(a.ns) >= MIN_TRIALS) <==> Sufficient(rows, faceFilter)
  {
    AggregatedLevels(rows, faceFilter);
    CountConservation(rows, faceFilter);
  }

  /** Both fits succeed on the aggregated data. */
  predicate FitsSucceed(rows: seq<LogRow>, faceFilter: Option<string>, fit: Fitter) {
    var a := Aggregated(rows, faceFilter);
    fit(a.xs, a.lefts, a.ns).Some? && fit(a.xs, a.rights, a.ns).Some?
  }

  /** No grid cell of [gazeMin, gazeMax] shows a sign change of g. */
  predicate NoCrossing(g: real -> real, gazeMin: real, gazeMax: real) {
    forall k :: 1 <= k <= Steps(gazeMin, gazeMax) ==> !SignChangeAt(g, gazeMin, k)
  }

  /**
   * The two scans: for the left boundary the crossing of "Left" with "Direct",
   * preferring values at most zero; for the right boundary the crossing of
   * "Right" with "Direct", preferring values at least zero. The ghost outputs
   * are each scan's candidates and the grid cells they came from.
   */
  method LocateCrossings(fitL: Fit, fitR: Fit, sigmoid: real -> real, gazeMin: real, gazeMax: real)
    returns (xLeft: Option<real>, xRight: Option<real>, ghost leftCandidates: seq<real>, ghost leftCells: seq<nat>,
             ghost rightCandidates: seq<real>, ghost rightCells: seq<nat>)
    ensures Located(xLeft, xRight, fitL, fitR, sigmoid, gazeMin, gazeMax,
                    leftCandidates, leftCells, rightCandidates, rightCells)
    ensures xLeft.None? <==> NoCrossing(LeftGap(fitL, fitR, sigmoid), gazeMin, gazeMax)
    ensures xRight.None? <==> NoCrossing(RightGap(fitL, fitR, sigmoid), gazeMin, gazeMax)
  {
    xLeft, leftCandidates, leftCells := ScanForRoot(LeftGap(fitL, fitR, sigmoid), gazeMin, gazeMax, true);
    xRight, rightCandidates, rightCells := ScanForRoot(RightGap(fitL, fitR, sigmoid), gazeMin, gazeMax, false);
  }

  /**
   * The boundaries as located: each scan's candidates are one bisection result
   * per grid cell where its crossing function changes sign, in ascending
   * order; each boundary is the selection from them, missing exactly when
   * there is no such cell.
   */
  ghost predicate Located(xLeft: Option<real>, xRight: Option<real>, fitL: Fit, fitR: Fit, sigmoid: real -> real,
                          gazeMin: real, gazeMax: real, leftCandidates: seq<real>, leftCells: seq<nat>,
                          rightCandidates: seq<real>, rightCells: seq<nat>) {
    ScanOutcome(LeftGap(fitL, fitR, sigmoid), gazeMin, gazeMax, leftCandidates, leftCells) &&
    ScanOutcome(RightGap(fitL, fitR, sigmoid), gazeMin, gazeMax, rightCandidates, rightCells) &&
    xLeft == SelectRoot(leftCandidates, true) && xRight == SelectRoot(rightCandidates, false) &&
    NonDecreasing(leftCandidates) && NonDecreasing(rightCandidates) &&
    (xLeft.None? <==> NoCrossing(LeftGap(fitL, fitR, sigmoid), gazeMin, gazeMax)) &&
    (xRight.None? <==> NoCrossing(RightGap(fitL, fitR, sigmoid), gazeMin, gazeMax))
  }

  /**
   * The report once both fits exist, for located boundaries xLeft and xRight:
   * the fits themselves; status intersection_not_found with no width when a
   * boundary is missing, and otherwise status ok with the width
   * x_right - x_left.
   */
  predicate Reported(e: Estimate, xLeft: Option<real>, xRight: Option<real>, fitL: Fit, fitR: Fit) {
    e.xLeft == xLeft && e.xRight == xRight && e.fitL == Some(fitL) && e.fitR == Some(fitR) &&
    (e.note == IntersectionNotFound || e.note == Ok) &&
    (e.note == IntersectionNotFound <==> xLeft.None? || xRight.None?) &&
    (e.note == IntersectionNotFound ==> e.codg.None?) &&
    (e.note == Ok ==> xLeft.Some? && xRight.Some? && e.codg == Some(xRight.value - xLeft.value))
  }

  /** The report for located boundaries: their distance when both were found. */
  function Outcome(xLeft: Option<real>, xRight: Option<real>, fitL: Fit, fitR: Fit): (e: Estimate)
    ensures Reported(e, xLeft, xRight, fitL, fitR)
  {
    if xLeft.None? || xRight.None? then Estimate(None, xLeft, xRight, IntersectionNotFound, Some(fitL), Some(fitR))
    else Estimate(Some(xRight.value - xLeft.value), xLeft, xRight, Ok, Some(fitL), Some(fitR))
  }

  /**
   * What the estimate holds once both fits exist: the boundaries as located
   * by the two scans, reported with their width.
   */
  ghost predicate Concluded(e: Estimate, fitL: Fit, fitR: Fit, sigmoid: real -> real, gazeMin: real, gazeMax: real,
                            leftCandidates: seq<real>, leftCells: seq<nat>,
                            rightCandidates: seq<real>, rightCells: seq<nat>) {
    Located(e.xLeft, e.xRight, fitL, fitR, sigmoid, gazeMin, gazeMax,
            leftCandidates, leftCells, rightCandidates, rightCells) &&
    Reported(e, e.xLeft, e.xRight, fitL, fitR)
  }

  /** The estimate once both fits exist: both boundaries located, and their distance when both were found. */
  method Conclude(fitL: Fit, fitR: Fit, sigmoid: real -> real, gazeMin: real, gazeMax: real)
    returns (e: Estimate, ghost leftCandidates: seq<real>, ghost leftCells: seq<nat>,
             ghost rightCandidates: seq<real>, ghost rightCells: seq<nat>)
    ensures Concluded(e, fitL, fitR, sigmoid, gazeMin, gazeMax, leftCandidates, leftCells, rightCandidates, rightCells)
    ensures e.note == IntersectionNotFound <==>
              NoCrossing(LeftGap(fitL, fitR, sigmoid), gazeMin, gazeMax) ||
              NoCrossing(RightGap(fitL, fitR, sigmoid), gazeMin, gazeMax)
    ensures Reported(e, e.xLeft, e.xRight, fitL, fitR)
  {
    var xLeft, xRight;
    xLeft, xRight, leftCandidates, leftCells, rightCandidates, rightCells :=
      LocateCrossings(fitL, fitR, sigmoid, gazeMin, gazeMax);
    e := Outcome(xLeft, xRight, fitL, fitR);
  }

  /**
   * The estimate over the rows that pass the face filter, searching crossings
   * in [gazeMin, gazeMax]. The ghost outputs are the candidates of the two
   * scans and their grid cells (empty when no scan ran).
   */
  method EstimateCoDG(rows: seq<LogRow>, gazeMin: real, gazeMax: real, faceFilter: Option<string>,
                      fit: Fitter, sigmoid: real -> real)
    returns (e: Estimate, ghost leftCandidates: seq<real>, ghost leftCells: seq<nat>,
             ghost rightCandidates: seq<real>, ghost rightCells: seq<nat>)
    ensures e.note == InsufficientData <==> !Sufficient(rows, faceFilter)
    ensures e.note == FitFailed <==> Sufficient(rows, faceFilter) && !FitsSucceed(rows, faceFilter, fit)
    ensures e.note in {InsufficientData, FitFailed} ==>
              e.codg.None? && e.xLeft.None? && e.xRight.None? && e.fitL.None? && e.fitR.None? &&
              leftCandidates == [] && leftCells == [] && rightCandidates == [] && rightCells == []
    ensures Sufficient(rows, faceFilter) && FitsSucceed(rows, faceFilter, fit) ==>
              var a := Aggregated(rows, faceFilter);
              Concluded(e, fit(a.xs, a.lefts, a.ns).value, fit(a.xs, a.rights, a.ns).value, sigmoid, gazeMin, gazeMax,
                        leftCandidates, leftCells, rightCandidates, rightCells)
  {
    leftCandidates, leftCells, rightCandidates, rightCells := [], [], [], [];
    var agg := AggregateByGazeLevel(rows, faceFilter);
    var totalN := Sum(agg.ns);
    GateOnAggregate(rows, faceFilter);
    if |agg.xs| < MIN_LEVELS || totalN < MIN_TRIALS {
      return Estimate(None, None, None, InsufficientData, None, None), [], [], [], [];
    }
    var fitL := fit(agg.xs, agg.lefts, agg.ns);
    var fitR := fit(agg.xs, agg.rights, agg.ns);
    if fitL.None? || fitR.None? {
      return Estimate(None, None, None, FitFailed, None, None), [], [], [], [];
    }
    e, leftCandidates, leftCells, rightCandidates, rightCells := Conclude(fitL.value, fitR.value, sigmoid, gazeMin, gazeMax);
  }
}
