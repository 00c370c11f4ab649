# CoDG task — a Dafny model of its core

The cone-of-direct-gaze (CoDG) task shows a face whose eyes are turned by one
of eleven gaze angles and asks whether the gaze is directed to the left,
directly at the viewer, or to the right. Two faces (M1, F1) are crossed with
the eleven levels (−12 … 12), and each combination is shown five times: 110
trials in a shuffled order. Every answer becomes one log row. At the end the
rows are grouped by gaze level, one logistic curve is fitted to the "Left"
answers and one to the "Right" answers, and the estimate is the width between
the two points where each curve crosses the implied probability of "Direct".
The rows are offered for download as CSV.

The model covers:

- `Trials` (`trials.dfy`). This holds the design constants, the trial record
  with its image file name `<face>_<gaze>.png`, the nested loops that build
  the list, and the in-place Fisher–Yates shuffle on an `array`. The random
  index is a nondeterministic choice in `[0, i]`, and the ghost output
  `choices` records the draws. The shuffle is proved equal to a reference
  function `Applied` of its draws and proved to be a permutation for any
  draws. The trial list is proved to hold each (face, level, repeat) triple
  exactly once.
- `Aggregate` (`aggregate.dfy`). This is the grouping by gaze level. The
  imperative loop fills a map in row order. It is proved equal to the
  functional definition `Aggregated`. The lemmas state:
  - the levels are strictly ascending and are exactly the levels present;
  - the columns are parallel;
  - at each level, Left + Right ≤ n and n ≥ 1;
  - the counts sum to the number of rows that pass the filter;
  - filtering first and aggregating unfiltered gives the same result;
  - a row of another face changes nothing.
- `RootSearch` (`rootsearch.dfy`). This holds the bisection root finder, the
  grid scan for sign changes, and the rule that picks one candidate. The
  function being searched is an arbitrary `real -> real`, and arithmetic is
  exact (real numbers).
- `Estimator` (`estimator.dfy`). This is the end-of-task estimate:
  - the gate on too little data;
  - the two fits, with the fitting routine and the sigmoid passed in as
    function parameters;
  - the two crossing functions;
  - the status of the result.
- `Session` (`session.dfy`). This is the running task as a class. Its state is
  the trial list, the log, the current index, the current trial and whether
  an answer is awaited. It has start, trial presentation, answer recording
  and advancing. The invariant `Valid` says:
  - logged trial numbers are strictly increasing, so there is at most one row
    per trial;
  - each row describes the trial it names;
  - no row lies beyond the current trial.
- `Csv` (`csv.dfy`). This is the escaping of one value and the comma join of
  a line. Its partner is a quote-aware reader, and the model proves that the
  reader gives every value's text back.
- Supporting modules:
  - `Text` renders integers of magnitude below 10^21 as JavaScript does,
    and parses them back;
  - `Records` holds the log row;
  - `Seqs` and `Wrappers` hold small sequence facts and `Option`.

## Model

| member | source | states |
|---|---|---|
| Trials.Shuffle | task.js:53-59 | The array afterwards is the reference `Applied` of its initial contents and the recorded draws. There is one draw per index from the last down to 1, each in `[0, i]`. The contents are a permutation of the initial contents. |
| Trials.AppliedIsPermutation | task.js:54-57 | Whatever indices are drawn, the sequence of swaps leaves the multiset of elements unchanged. |
| Trials.ListDesign | task.js:62-76 | The nested face / level / repeat loops push exactly the reference list `CrossProduct`: faces outermost, then levels, then repeats 1..R. |
| Trials.PushRepeats | task.js:65-74 | The innermost loop appends exactly the trials of one face and one level, with repeats 1..R in order. |
| Trials.CrossProductCount | task.js:63-76 | With distinct faces and distinct levels, each (face, level, repeat) triple of the design occurs exactly once in the list, and nothing else occurs. |
| Trials.CrossProductLength | task.js:63-76 | The list has faces × levels × repeats entries. |
| Trials.PermutedDesign | task.js:61-78 | Any reordering of the design has 2 × 11 × 5 = 110 entries, each design triple exactly once. |
| Trials.MakeTrialList | task.js:61-78 | The shuffled trial list has 110 entries and holds every (face, level, repeat) triple of the design exactly once, and no other trial. |
| Trials.ShuffleList | task.js:77 | Shuffling the built list in place gives a permutation of it. |
| Trials.DesignIsDistinct | task.js:5-6 | The configured faces and gaze levels contain no repetitions. |
| Trials.FileNameInjective | task.js:66 | For face labels without `_`, the image name `<face>_<gaze>.png` determines the face and the gaze level, and vice versa. |
| Trials.DesignImagesIdentifyStimulus | task.js:66-72 | Two design trials show the same image file exactly when they have the same face and gaze level. |
| Text.ParseIntToString | task.js:66 | The decimal rendering of a gaze level parses back to that level. |
| Text.IntToStringInjective | task.js:66 | Distinct gaze levels render as distinct strings. |
| Text.IntToString | task.js:66 | The rendering is non-empty and starts with `-` exactly for negative numbers. The rest is decimal digits, with no leading zero except for 0 itself. |
| Aggregate.AggregateByGazeLevel | task.js:174-191 | The single pass over the rows into a map, the key sort and the column read-out compute `Aggregated(rows, faceFilter)`. |
| Aggregate.CountByLevel | task.js:175-184 | The keys of the map are the levels of the passing rows in first-seen order. The entry for each level holds its row count and its Left and Right counts. |
| Aggregate.SortAscending | task.js:186 | The sorted keys are a permutation of the keys in ascending order. |
| Aggregate.Insert | task.js:186 | Inserting one key into the sorted prefix adds exactly that key to the multiset of keys. |
| Aggregate.InsertAscending | task.js:186 | Inserting a key into an ascending sequence keeps it ascending. |
| Aggregate.SortDistinct | task.js:186 | Sorting distinct keys gives a strictly ascending sequence. |
| Aggregate.LevelsDistinct | task.js:179 | A level is added to the map only once. |
| Aggregate.LevelsMembers | task.js:176-179 | The map's keys are exactly the levels of the rows that pass the filter. |
| Aggregate.AggregatedLevels | task.js:186-190 | `xs` is strictly ascending and holds exactly the levels present among the passing rows, one entry per level. `ns`, `lefts` and `rights` have the length of `xs`. |
| Aggregate.TallyPresent | task.js:179-181 | A level in the map has a count of at least one. |
| Aggregate.TallySplit | task.js:181-183 | At each level, Left + Right + Direct answers equal the level's count. |
| Aggregate.PerLevelBound | task.js:181-183 | At every level, n ≥ 1 and left + right ≤ n. |
| Aggregate.SumColumn | task.js:187 | The sum of the count column over distinct levels is the number of passing rows at those levels. |
| Aggregate.CountInAll | task.js:176-181 | Counting over levels that cover every passing row counts every passing row. |
| Aggregate.IncludedCountAll | task.js:177 | With no filter, or an empty filter string, every row passes. |
| Aggregate.CountConservation | task.js:176-181 | The sum of `ns` is the number of rows that pass the filter. With no filter it is the number of rows. |
| Aggregate.IncludedRows | task.js:177 | The kept rows are rows of the input that pass the filter. |
| Aggregate.FilterFirst | task.js:177 | Aggregating with a face filter equals aggregating, unfiltered, the rows that pass it. |
| Aggregate.ColumnFiltered | task.js:177-190 | Each column computed under the face filter equals the same column over the rows that pass the filter, unfiltered. |
| Aggregate.IncludedRowsAppend | task.js:176-177 | Filtering distributes over concatenation. |
| Aggregate.TallyPermutation | task.js:176-183 | Two row lists holding the same rows, in any order, give every level the same count of rows with a given answer. |
| Aggregate.StrictlyAscendingUnique | task.js:186 | Two strictly ascending key lists with the same members are equal, so the sorted keys do not depend on the order of insertion. |
| Aggregate.AggregatedOrderFree | task.js:174-191 | The aggregation depends only on which rows were logged, not on their order: two logs that are permutations of each other aggregate to the same levels and columns. |
| Aggregate.ExcludedRowIgnored | task.js:177 | When the filter is set and a row's face differs, inserting that row anywhere leaves the aggregation unchanged. |
| RootSearch.FindRootBisection | task.js:193-215 | Returns `a` when f(a) = 0. Otherwise returns `b` when f(b) = 0. Returns nothing exactly when f(a)·f(b) > 0. Any root lies in [a, b]. Past the end checks, the root lies inside a sign-change bracket within [a, b], and either \|f(root)\| < tol, or it is the midpoint of a bracket halved maxIter times. |
| RootSearch.ProductSign | task.js:198-206 | f(a)·f(b) ≤ 0 exactly when the two values have opposite signs or one is zero. |
| RootSearch.Halve | task.js:202-212 | Each halving step halves the bracket width. |
| RootSearch.MidpointBetween | task.js:202 | The midpoint stays within the bracket and within [a, b]. |
| RootSearch.GridBound | task.js:246 | The grid point `gazeMin + k·0.25` is visited exactly when `k` is at most `Steps(gazeMin, gazeMax)`. |
| RootSearch.CollectCandidates | task.js:241-254 | One candidate per grid cell with a sign change, from left to right. Each candidate lies within its cell and is the bisection result on that cell (`Refined` with TOL and MAX_ITER), and no sign-change cell is missed. |
| RootSearch.BisectCell | task.js:248-249 | On a cell whose end values have opposite signs or a zero, the bisection always returns a root, and that root lies within the cell and satisfies `Refined` with TOL and MAX_ITER. |
| RootSearch.RefinedSnoc | task.js:248-250 | Appending a refined root for a further cell keeps every candidate the bisection result on its own cell. |
| RootSearch.ScanHit | task.js:248-250 | A cell with a sign change whose root lies within the cell extends the collected candidates by that root, keeping them one per sign-change cell, in order and within their cells. |
| RootSearch.ScanDone | task.js:246-256 | Once the grid is walked to its end, the collected candidates are the scan's outcome: ascending, one per sign-change cell, each the bisection result on its cell, and empty exactly when no cell changes sign. |
| RootSearch.NoCandidates | task.js:248-250 | No candidate is found exactly when no grid cell shows a sign change. |
| RootSearch.CellsOrdered | task.js:246-250 | Candidates come out in non-decreasing order. |
| RootSearch.ScanForRoot | task.js:240-265 | The result is the selection rule applied to the scan's candidates (`ScanOutcome`). The candidates are ascending, one per sign-change grid cell from left to right, each the bisection result on its cell (`Refined`). There is no result exactly when no grid cell shows a sign change. |
| RootSearch.NonPositive | task.js:259 | Exactly the candidates ≤ 0 are kept. |
| RootSearch.NonNegative | task.js:262 | Exactly the candidates ≥ 0 are kept. |
| RootSearch.FirstNonNegative | task.js:262-263 | The first kept candidate ≥ 0 sits at a position before which every candidate is negative. |
| RootSearch.SelectRoot | task.js:256-264 | There is no result exactly when there are no candidates. A result is always one of the candidates. |
| RootSearch.NonPositiveLast | task.js:259-260 | With candidates in ascending order, the last candidate ≤ 0 is the largest such candidate. |
| RootSearch.NonNegativeFirst | task.js:262-263 | With candidates in ascending order, the first candidate ≥ 0 is the smallest such candidate. |
| RootSearch.SelectLeftBoundary | task.js:258-260 | The left boundary is the largest candidate ≤ 0 when one exists. Otherwise it is the first, and smallest, candidate. |
| RootSearch.SelectRightBoundary | task.js:261-263 | The right boundary is the smallest candidate ≥ 0 when one exists. Otherwise it is the last, and largest, candidate. |
| RootSearch.Abs | task.js:205 | The absolute value is non-negative and is ±x. |
| Estimator.GapsAreCrossings | task.js:231-238 | The left crossing function vanishes exactly where P(Left) = P(Direct) = 1 − P(Left) − P(Right). The right one vanishes exactly where P(Right) = P(Direct). |
| Estimator.GateOnAggregate | task.js:218-223 | The gate as computed, on the number of aggregated levels and the sum of the counts, holds exactly when the rows passing the filter have at least 5 distinct levels and at least 30 rows. |
| Estimator.LocateCrossings | task.js:267-268 | Each boundary is the selection from its scan's ascending candidates, preferring ≤ 0 on the left and ≥ 0 on the right. The candidates satisfy `ScanOutcome` for the left and right crossing functions: one per sign-change cell, each the bisection result on its cell. A boundary is missing exactly when its crossing function shows no sign change on the grid. |
| Estimator.Conclude | task.js:267-274 | The boundaries satisfy `Located` (the `ScanOutcome` of both crossing functions and the selection rule). With both fits, the status is `intersection_not_found` with no width exactly when a boundary is missing. Otherwise it is `ok` with codg = x_right − x_left. Both fits are reported. |
| Estimator.Outcome | task.js:270-274 | The status is `intersection_not_found`, with no width, exactly when a boundary is missing; otherwise it is `ok` and codg = x_right − x_left. The boundaries and both fits are reported as given. |
| Estimator.EstimateCoDG | task.js:217-275 | Each status holds exactly under its condition: `insufficient_data` when there are fewer than 5 levels or fewer than 30 counted rows; `fit_failed` when the data suffice but a fit fails; `intersection_not_found` when both fits succeed but a crossing is missing; `ok` otherwise. Nothing is reported in the first two cases. Otherwise the result satisfies `Concluded` for the fitter's results on the aggregated columns: each boundary is the selection from its scan's candidates, which satisfy `ScanOutcome` (each the bisection result on its sign-change cell), and with `ok`, codg = x_right − x_left. |
| Session.LogBound | task.js:324 | Strictly increasing trial numbers in 1..N leave room for at most N rows. |
| Session.LogFitsTrials | task.js:316-343 | A well-formed log has at most one row per trial, and so no more rows than trials. |
| Session.LogAppend | task.js:317-337 | Logging the awaited trial's row keeps the log well formed once the trial is no longer awaited. |
| Session.TaskSession.constructor | task.js:36-42 | Before any start, nothing is loaded or awaited, and the invariant holds. |
| Session.TaskSession.RunTrial | task.js:279-314 | Presenting a trial makes it current and awaits its answer. Trials, log and index are unchanged. |
| Session.TaskSession.Start | task.js:430-447 | An empty participant id changes nothing. Otherwise: a fresh 110-trial list holding each design triple once; an empty log; index 0; the first trial presented and awaited; the invariant established. |
| Session.TaskSession.RecordResponse | task.js:316-343 | Without an awaited answer, nothing changes. Otherwise exactly one row, for the current trial with number index + 1, is appended. The answer is no longer awaited, and the invariant is kept. |
| Session.TaskSession.NextTrial | task.js:369-377 | The index advances by one. The session reports finished exactly when the index has passed the last trial. Otherwise the trial at the new index is presented and awaited. Log and trials are unchanged, and the invariant is kept. |
| Csv.DoubleQuotes | task.js:348 | Each double quote is doubled, so the text grows by the number of quotes. Text without quotes is unchanged. |
| Csv.CsvEscape | task.js:345-350 | A missing value becomes the empty field. Text without `"`, `,` or newline is kept as is. Otherwise the field is the text in double quotes with its quotes doubled. |
| Csv.EscapeAll | task.js:355 | One field per value: field k is value k escaped. |
| Csv.ParseQuotedDoubled | task.js:348 | Reading a doubled-quote body up to its closing quote gives the original text back. |
| Csv.ParseUnquotedPlain | task.js:349 | Reading unquoted text without commas gives it back, up to the next comma. |
| Csv.QuotedReadsBack | task.js:348 | A quoted field reads back as its text and leaves what follows. |
| Csv.EscapeReadsBack | task.js:345-350 | Every escaped value reads back as the value's text, whatever comma-led rest follows it. |
| Csv.UnescapeEscape | task.js:345-350 | Unescaping an escaped value gives the value's text. |
| Csv.LineReadsBack | task.js:355 | Reading a data line of escaped, comma-joined values gives every value's text back, in order. |

## Left out

- Not-a-number checks in the root finder and the scan (`Number.isNaN`). The model works on real numbers, where every value is a number.
- Floating point. Sums, products, halving and the grid step `x += 0.25` are exact real arithmetic. The grid point k is `gazeMin + k·0.25`, which equals the floating-point walk when gazeMin is a multiple of 0.25.
- The logistic fit (IRLS) and the sigmoid. `Estimator.EstimateCoDG` receives the fitting routine (which may fail) and the sigmoid as function parameters. The model says what is done with their results, not how they are computed.
- `Estimator.EstimateCoDG`: the log, the face filter and the search interval are parameters. The defaults −12 and 12 are left to the caller.
- The estimate omits `fitL` and `fitR` in the insufficient-data and fit-failed cases. The model reports them as `None` there.
- The fixation window. `Session.TaskSession.RunTrial` makes the trial await its answer at once. The fixation cross, the image loading, the stimulus timers and button enabling are left out.
- The reaction time, the ISO timestamp, the user-agent string and the trimmed participant id come from the browser. `Session.TaskSession.RecordResponse` takes them as parameters.
- `Session.TaskSession.NextTrial` requires that no answer is awaited. That is the only state in which the task calls it: after an answer was recorded, following the post-response pause.
- `Trials.MakeTrialList` states the trial list as a count of each trial (each design triple exactly once) rather than as a permutation of the unshuffled list. Both follow from `Trials.Shuffle`; the count form is what the task relies on.
- Math.random itself. The shuffle's index is a nondeterministic choice in `[0, i]`, so the proofs hold for every sequence of draws.
- The end-of-task summary, the download of files (Blob, URL, anchor click) and number formatting with `toFixed` are user-interface code.
- The CSV header comes from `Object.keys` of the first row. The model covers one data line (`Csv.CsvLine`) and not the newline join of header and lines.
- The summary row's real numbers (codg, x_left, x_right and the four fit coefficients, task.js:394-407) and their `String()` form. That form has no quote, comma or newline, so the CSV escaping passes it through unchanged; the model escapes strings, integers and missing values only.
- `Text.IntToString`: renders every integer in plain decimal digits. JavaScript switches to exponent notation at magnitude 10^21 and above; gaze levels, repeats and trial numbers stay far below that.
- The DOM, the click handlers and the restart button.
