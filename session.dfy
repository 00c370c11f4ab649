/**
 * The running task: the shuffled trial list, the log of responses, the index
 * of the current trial and whether a response is being awaited. A response
 * is logged only while one is awaited, at most once per trial, and the index
 * moves on one trial at a time until the list is used up.
 */
module Session {
  import opened Wrappers
  import opened Records
  import opened Trials

  /** A log row describes the trial it was recorded for. */
  predicate Describes(row: LogRow, trial: Trial) {
    row.faceId == trial.faceId && row.gazeLevel == trial.gazeLevel && row.repeat == trial.repeat &&
    row.imageFile == trial.ImageFile()
  }

  /**
   * The log as the task keeps it: 1-based trial numbers, strictly increasing
   * (so at most one response per trial), each row describing its trial, and
   * none beyond the current trial (none for the current trial itself while
   * its response is still awaited).
   */
  predicate LogWellFormed(trials: seq<Trial>, logs: seq<LogRow>, tIndex: nat, awaiting: bool) {
    (forall j :: 0 <= j < |logs| ==> RowFits(trials, logs[j], if awaiting then tIndex else tIndex + 1)) &&
    (forall i, j :: 0 <= i < j < |logs| ==> logs[i].trialIndex < logs[j].trialIndex)
  }

  /** The row names a trial of the list, numbered at most `bound`, and describes it. */
  predicate RowFits(trials: seq<Trial>, row: LogRow, bound: int) {
    1 <= row.trialIndex <= |trials| && row.trialIndex <= bound && Describes(row, trials[row.trialIndex - 1])
  }

  /** Strictly increasing trial numbers in 1..bound leave room for at most `bound` rows. */
  lemma {:induction false} LogBound(logs: seq<LogRow>, bound: int)
    requires 0 <= bound
    requires forall j :: 0 <= j < |logs| ==> 1 <= logs[j].trialIndex <= bound
    requires forall i, j :: 0 <= i < j < |logs| ==> logs[i].trialIndex < logs[j].trialIndex
    ensures |logs| <= bound
    decreases |logs|
  {
    if logs != [] {
      var pre := logs[..|logs| - 1];
      LogBound(pre, logs[|logs| - 1].trialIndex - 1);
    }
  }

  /** A well-formed log has at most one row per trial, so never more rows than trials. */
  lemma LogFitsTrials(trials: seq<Trial>, logs: seq<LogRow>, tIndex: nat, awaiting: bool)
    requires LogWellFormed(trials, logs, tIndex, awaiting)
    ensures |logs| <= |trials|
    ensures forall i, j :: 0 <= i < |logs| && 0 <= j < |logs| && i != j ==> logs[i].trialIndex != logs[j].trialIndex
  {
    LogBound(logs, |trials|);
  }

  /** The row logged for an answer to `trial`, the `trialNo`-th of the session. */
  function RowFor(trial: Trial, trialNo: int, resp: Response, pid: string, rtMs: int, presentedAt: string,
                  device: string): (row: LogRow)
    ensures Describes(row, trial) && row.trialIndex == trialNo && row.response == resp
  {
    LogRow(pid, trialNo, trial.faceId, trial.gazeLevel, trial.repeat, trial.ImageFile(), resp, rtMs, presentedAt, device)
  }

  /** Answering the awaited trial keeps the log well formed. */
  lemma LogAppend(trials: seq<Trial>, logs: seq<LogRow>, tIndex: nat, row: LogRow)
    requires LogWellFormed(trials, logs, tIndex, true) && tIndex < |trials|
    requires row.trialIndex == tIndex + 1 && Describes(row, trials[tIndex])
    ensures LogWellFormed(trials, logs + [row], tIndex, false)
  {
    var next := logs + [row];
    forall j | 0 <= j < |next| ensures RowFits(trials, next[j], tIndex + 1) {
      if j < |logs| {
        assert next[j] == logs[j] && RowFits(trials, logs[j], tIndex);
      } else {
        assert next[j] == row;
      }
    }
    forall i, j | 0 <= i < j < |next| ensures next[i].trialIndex < next[j].trialIndex {
      assert next[i] == logs[i] && RowFits(trials, logs[i], tIndex);
      if j < |logs| {
        assert next[j] == logs[j];
      }
    }
  }

  class TaskSession {
    var trials: seq<Trial>
    var logs: seq<LogRow>
    var tIndex: nat
    var awaitingResponse: bool
    var currentTrial: Option<Trial>

    predicate Valid()
      reads this
    {
      LogWellFormed(trials, logs, tIndex, awaitingResponse) &&
      (awaitingResponse ==> tIndex < |trials| && currentTrial == Some(trials[tIndex]))
    }

    /** The state before the first start: nothing loaded, nothing awaited. */
    constructor()
      ensures trials == [] && logs == [] && tIndex == 0 && !awaitingResponse && currentTrial == None
      ensures Valid()
    {
      trials := [];
      logs := [];
      tIndex := 0;
      awaitingResponse := false;
      currentTrial := None;
    }

    /**
     * Presents a trial. The fixation cross that precedes the stimulus, during
     * which answers are not yet accepted, is not modelled: the trial is
     * awaiting its response as soon as it is presented.
     */
    method RunTrial(trial: Trial)
      modifies this
      ensures currentTrial == Some(trial) && awaitingResponse
      ensures trials == old(trials) && logs == old(logs) && tIndex == old(tIndex)
    {
      currentTrial := Some(trial);
      awaitingResponse := true;
    }

    /**
     * Starts a session for participant `pid` (already trimmed): an empty id
     * starts nothing; otherwise the log is cleared, a fresh shuffled trial
     * list of the full design is drawn and its first trial presented.
     */
    method Start(pid: string)
      modifies this
      ensures pid == "" ==>
                trials == old(trials) && logs == old(logs) && tIndex == old(tIndex) &&
                awaitingResponse == old(awaitingResponse) && currentTrial == old(currentTrial)
      ensures pid != "" ==>
                |trials| == 110 &&
                (forall t :: multiset(trials)[t] == if IsTrialOf(t, FACES, GAZE_LEVELS, REPEATS) then 1 else 0) &&
                logs == [] && tIndex == 0 && awaitingResponse && currentTrial == Some(trials[0]) && Valid()
    {
      if pid == "" {
        return;
      }
      logs := [];
      trials := MakeTrialList();
      tIndex := 0;
      RunTrial(trials[0]);
    }

    /**
     * Logs an answer to the current trial, if one is awaited; otherwise does
     * nothing. The reaction time, timestamp and device string are supplied by
     * the caller.
     */
    method RecordResponse(resp: Response, pid: string, rtMs: int, presentedAt: string, device: string)
      requires Valid()
      modifies this
      ensures Valid()
      ensures trials == old(trials) && tIndex == old(tIndex) && currentTrial == old(currentTrial)
      ensures !awaitingResponse
      ensures !old(awaitingResponse) ==> logs == old(logs)
      ensures old(awaitingResponse) ==>
                logs == old(logs) + [RowFor(trials[tIndex], tIndex + 1, resp, pid, rtMs, presentedAt, device)]
    {
      if !awaitingResponse {
        return;
      }
      awaitingResponse := false;
      assert currentTrial.value == trials[tIndex];
      var row := RowFor(currentTrial.value, tIndex + 1, resp, pid, rtMs, presentedAt, device);
      LogAppend(trials, logs, tIndex, row);
      logs := logs + [row];
    }

    /**
     * Moves to the next trial once the last answer is logged. Reports whether
     * the list is used up (the task then finishes); otherwise the next trial
     * is presented.
     */
    method NextTrial() returns (finished: bool)
      requires Valid() && !awaitingResponse
      modifies this
      ensures Valid()
      ensures tIndex == old(tIndex) + 1
      ensures finished <==> tIndex >= |trials|
      ensures finished ==> !awaitingResponse && currentTrial == old(currentTrial)
      ensures !finished ==> awaitingResponse && currentTrial == Some(trials[tIndex])
      ensures trials == old(trials) && logs == old(logs)
    {
      tIndex := tIndex + 1;
      if tIndex >= |trials| {
        return true;
      }
      RunTrial(trials[tIndex]);
      finished := false;
    }
  }
}
