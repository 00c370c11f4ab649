/** The per-trial log row the task records and the estimator reads. */
module Records {

  /** The three answer buttons. */
  datatype Response = Left | Direct | Right

  /**
   * One logged response. The reaction time, timestamp and device string come
   * from the browser and are carried as given.
   */
  datatype LogRow = LogRow(
    participantId: string,
    trialIndex: int,
    faceId: string,
    gazeLevel: int,
    repeat: int,
    imageFile: string,
    response: Response,
    rtMs: int,
    presentedAt: string,
    device: string)
}
