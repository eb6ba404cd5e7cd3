/** GradingSessionService: the life cycle of a grading session as a
    synchronous state machine. Each operation takes a session value and
    returns the session it saves, or the error it throws. The comparison and
    the analysis outcome are inputs: a successful analysis supplies a
    comparison result, a failed one the exception's message. */
module Sessions {
  import opened Wrappers
  import opened Strings
  import Comparison
  import Feedback

  datatype SessionStatus = Created | Analyzing | Ready | Completed

  datatype FileType = StudentFile | ReferenceFile

  datatype FileStatus = FileUploaded | FileProcessing | FileCompleted | FileError

  datatype UploadedFile = UploadedFile(id: nat, fileType: FileType, status: FileStatus, errorMessage: Option<string>)

  datatype GradingSession = GradingSession(
    id: nat,
    studentFile: UploadedFile,
    referenceFile: UploadedFile,
    comparison: Option<Comparison.ComparisonResult>,
    feedbacks: seq<Feedback.FeedbackRecord>,
    overallScore: Option<int>,
    finalComments: Option<string>,
    status: SessionStatus)

  const FirstFileMessage: string := "First file must be a student file"
  const SecondFileMessage: string := "Second file must be a reference file"
  const NotReadyMessage: string := "Session must be in READY status to complete"
  const ScoreRangeMessage: string := "Overall score must be between 0 and 100"
  const NullScoreMessage: string := "overallScore is null"
  const AnalysisFailedPrefix: string := "Analysis failed: "
  /** What the commit of a transaction marked rollback-only throws
      (Spring's UnexpectedRollbackException). */
  const RolledBackMessage: string := "Transaction silently rolled back because it has been marked as rollback-only"

  /** The life-cycle steps the service performs. RESTART may start from any
      status. */
  predicate Step(from: SessionStatus, to: SessionStatus) {
    || (from == Created && to == Analyzing)
    || (from == Analyzing && to == Ready)
    || (from == Analyzing && to == Created)
    || (from == Ready && to == Completed)
    || to == Created
  }

  /** What holds of every session the service saves: the files have the
      right types; a session awaiting or undergoing analysis has neither a
      comparison nor a score; a READY one has a comparison and no score; a
      COMPLETED one has a comparison and a score in [0, 100]. */
  predicate WellFormed(s: GradingSession) {
    && s.studentFile.fileType == StudentFile
    && s.referenceFile.fileType == ReferenceFile
    && (s.status == Created || s.status == Analyzing ==> s.comparison.None? && s.overallScore.None?)
    && (s.status == Ready ==> s.comparison.Some? && s.overallScore.None?)
    && (s.status == Completed ==> s.comparison.Some? && s.overallScore.Some? && 0 <= s.overallScore.value <= 100)
  }

  // ---------------------------------------------------------------------------
  // Operations

  /** createGradingSession up to the first save, before the analysis it
      then runs. `files` are the uploaded files by id; `newId` is the id the
      database assigns. */
  function SaveNewSession(files: map<nat, UploadedFile>, studentFileId: nat, referenceFileId: nat, newId: nat): (r: Result<GradingSession>)
    ensures r.Success? <==>
      && studentFileId in files && referenceFileId in files
      && files[studentFileId].fileType == StudentFile && files[referenceFileId].fileType == ReferenceFile
    ensures studentFileId in files && referenceFileId in files && files[studentFileId].fileType != StudentFile ==>
      r == Failure(FirstFileMessage)
    ensures r.Success? ==>
      && r.value.status == Created && WellFormed(r.value)
      && r.value.studentFile == files[studentFileId] && r.value.referenceFile == files[referenceFileId]
      && r.value.feedbacks == [] && r.value.finalComments.None?
  {
    if studentFileId !in files then Failure("File not found: " + DecimalString(studentFileId))
    else if referenceFileId !in files then Failure("File not found: " + DecimalString(referenceFileId))
    else if files[studentFileId].fileType != StudentFile then Failure(FirstFileMessage)
    else if files[referenceFileId].fileType != ReferenceFile then Failure(SecondFileMessage)
    else Success(GradingSession(newId, files[studentFileId], files[referenceFileId], None, [], None, None, Created))
  }

  /** createGradingSession: the new session, after the analysis that the
      service runs on it before returning. The call to the comparison runs
      inside the transaction of the creation; when it throws, the
      transaction is marked rollback-only, so although the analysis catches
      the exception, the commit throws and nothing is saved. Creation thus
      succeeds exactly when both files exist with the right types, the
      student file checked first, and the analysis succeeds. The session
      returned is READY with the comparison and both files COMPLETED, has
      no feedback, score or comments, and is well formed. */
  function CreateGradingSession(files: map<nat, UploadedFile>, studentFileId: nat, referenceFileId: nat, newId: nat,
                                outcome: Result<Comparison.ComparisonResult>): (r: Result<GradingSession>)
    ensures r.Success? <==>
      && studentFileId in files && referenceFileId in files
      && files[studentFileId].fileType == StudentFile && files[referenceFileId].fileType == ReferenceFile
      && outcome.Success?
    ensures studentFileId in files && referenceFileId in files && files[studentFileId].fileType != StudentFile ==>
      r == Failure(FirstFileMessage)
    ensures SaveNewSession(files, studentFileId, referenceFileId, newId).Success? && outcome.Failure? ==>
      r == Failure(RolledBackMessage)
    ensures r.Success? ==>
      && WellFormed(r.value) && r.value.id == newId
      && r.value.feedbacks == [] && r.value.overallScore.None? && r.value.finalComments.None?
      && r.value.studentFile.id == files[studentFileId].id && r.value.referenceFile.id == files[referenceFileId].id
      && r.value.status == Ready && r.value.comparison == Some(outcome.value)
      && r.value.studentFile.status == FileCompleted && r.value.referenceFile.status == FileCompleted
  {
    match SaveNewSession(files, studentFileId, referenceFileId, newId)
    case Failure(e) => Failure(e)
    case Success(s) =>
      var analysed := AnalyzeCode(s, outcome);
      if outcome.Failure? then Failure(RolledBackMessage) else Success(analysed)
  }

  /** analyzeCodeAsync, first step: the session is marked ANALYZING. */
  function StartAnalysis(s: GradingSession): GradingSession {
    s.(status := Analyzing)
  }

  /** analyzeCodeAsync, second step: on success the comparison is attached,
      the session is READY and both files COMPLETED; on failure the session
      returns to CREATED and both files are in ERROR with the message. */
  function FinishAnalysis(s: GradingSession, outcome: Result<Comparison.ComparisonResult>): GradingSession {
    match outcome
    case Success(c) =>
      s.(comparison := Some(c), status := Ready,
         studentFile := s.studentFile.(status := FileCompleted),
         referenceFile := s.referenceFile.(status := FileCompleted))
    case Failure(message) =>
      var m := Some(AnalysisFailedPrefix + message);
      s.(status := Created,
         studentFile := s.studentFile.(status := FileError, errorMessage := m),
         referenceFile := s.referenceFile.(status := FileError, errorMessage := m))
  }

  /** analyzeCodeAsync as one synchronous step. Analysing a CREATED session
      passes through ANALYZING and ends READY with the comparison and both
      files COMPLETED, or back in CREATED with both files in ERROR carrying
      "Analysis failed: " and the message. Only the status, the comparison
      and the file statuses change, and a well-formed session stays well
      formed. */
  function AnalyzeCode(s: GradingSession, outcome: Result<Comparison.ComparisonResult>): (r: GradingSession)
    ensures s.status == Created ==> Step(s.status, Analyzing) && Step(Analyzing, r.status)
    ensures outcome.Success? ==>
      r.status == Ready && r.comparison == Some(outcome.value)
      && r.studentFile.status == FileCompleted && r.referenceFile.status == FileCompleted
    ensures outcome.Failure? ==>
      r.status == Created && r.comparison == s.comparison
      && r.studentFile.status == FileError && r.referenceFile.status == FileError
      && r.studentFile.errorMessage == Some(AnalysisFailedPrefix + outcome.error)
      && r.referenceFile.errorMessage == Some(AnalysisFailedPrefix + outcome.error)
    ensures r.id == s.id && r.feedbacks == s.feedbacks && r.overallScore == s.overallScore
    ensures r.finalComments == s.finalComments
    ensures r.studentFile.id == s.studentFile.id && r.referenceFile.id == s.referenceFile.id
    ensures s.status == Created && WellFormed(s) ==> WellFormed(r)
  {
    FinishAnalysis(StartAnalysis(s), outcome)
  }

  /** completeGradingSession: only a READY session can be completed, and the
      status is checked before the score; a missing score fails when it is
      unboxed, one outside [0, 100] is refused. */
  function CompleteGradingSession(s: GradingSession, overallScore: Option<int>, finalComments: Option<string>): (r: Result<GradingSession>)
    ensures r.Success? <==> s.status == Ready && overallScore.Some? && 0 <= overallScore.value <= 100
    ensures s.status != Ready ==> r == Failure(NotReadyMessage)
    ensures r.Success? ==>
      && r.value.status == Completed && Step(s.status, r.value.status)
      && r.value.overallScore == overallScore && r.value.finalComments == finalComments
      && r.value.comparison == s.comparison && r.value.feedbacks == s.feedbacks
      && (WellFormed(s) ==> WellFormed(r.value))
  {
    if s.status != Ready then Failure(NotReadyMessage)
    else if overallScore.None? then Failure(NullScoreMessage)
    else if overallScore.value < 0 || overallScore.value > 100 then Failure(ScoreRangeMessage)
    else Success(s.(overallScore := overallScore, finalComments := finalComments, status := Completed))
  }

  /** restartAnalysis up to its save, before the analysis it then runs. A
      cleared session is CREATED and empty whatever it was before, keeps its
      files, and is well formed when its files have the right types. */
  function ClearSession(s: GradingSession): (r: GradingSession)
    ensures r.status == Created && Step(s.status, r.status)
    ensures r.comparison.None? && r.feedbacks == [] && r.overallScore.None? && r.finalComments.None?
    ensures r.id == s.id && r.studentFile == s.studentFile && r.referenceFile == s.referenceFile
    ensures s.studentFile.fileType == StudentFile && s.referenceFile.fileType == ReferenceFile ==> WellFormed(r)
  {
    s.(comparison := None, feedbacks := [], overallScore := None, finalComments := None, status := Created)
  }

  /** restartAnalysis: from any status, the session is cleared and analysed
      again before it is returned. As for creation, a failed comparison
      rolls the whole transaction back: the call fails and the stored
      session keeps its state. A restart succeeds exactly when the analysis
      does, and then feedback, score and comments are gone and the session
      is READY with the new comparison and both files COMPLETED; it keeps
      its id and files and is well formed when its files have the right
      types. */
  function RestartAnalysis(s: GradingSession, outcome: Result<Comparison.ComparisonResult>): (r: Result<GradingSession>)
    ensures r.Success? <==> outcome.Success?
    ensures outcome.Failure? ==> r == Failure(RolledBackMessage)
    ensures r.Success? ==>
      && r.value.feedbacks == [] && r.value.overallScore.None? && r.value.finalComments.None?
      && r.value.id == s.id && r.value.studentFile.id == s.studentFile.id && r.value.referenceFile.id == s.referenceFile.id
      && r.value.status == Ready && r.value.comparison == Some(outcome.value)
      && r.value.studentFile.status == FileCompleted && r.value.referenceFile.status == FileCompleted
      && (s.studentFile.fileType == StudentFile && s.referenceFile.fileType == ReferenceFile ==> WellFormed(r.value))
  {
    var analysed := AnalyzeCode(ClearSession(s), outcome);
    if outcome.Failure? then Failure(RolledBackMessage) else Success(analysed)
  }

  /** Restarting a restarted session with the same analysis outcome changes
      nothing more. */
  lemma RestartIdempotent(s: GradingSession, outcome: Result<Comparison.ComparisonResult>)
    ensures var r := RestartAnalysis(s, outcome);
      r.Success? ==> RestartAnalysis(r.value, outcome) == r
  {
  }

  /** isSessionReady. For a well-formed session, being ready means holding a
      comparison and not being completed. */
  function IsSessionReady(s: GradingSession): (b: bool)
    ensures WellFormed(s) ==> (b <==> s.comparison.Some? && s.status != Completed)
  {
    s.status == Ready
  }

  /** A request against an existing session. A restart carries the outcome
      of the analysis it runs. */
  datatype Action = Complete(score: Option<int>, comments: Option<string>)
                  | Restart(outcome: Result<Comparison.ComparisonResult>)

  /** One request against a session; a request the service refuses leaves it
      as it was. */
  function Apply(s: GradingSession, a: Action): GradingSession {
    match a
    case Complete(score, comments) =>
      var r := CompleteGradingSession(s, score, comments);
      if r.Success? then r.value else s
    case Restart(outcome) =>
      var r := RestartAnalysis(s, outcome);
      if r.Success? then r.value else s
  }

  function Run(s: GradingSession, actions: seq<Action>): GradingSession
    decreases |actions|
  {
    if actions == [] then s else Run(Apply(s, actions[0]), actions[1..])
  }

  /** Every session the service can reach from a well-formed one by
      completing and restarting is well formed. */
  lemma {:induction false} RunKeepsWellFormed(s: GradingSession, actions: seq<Action>)
    requires WellFormed(s)
    ensures WellFormed(Run(s, actions))
    decreases |actions|
  {
    if actions != [] {
      var a := actions[0];
      RunKeepsWellFormed(Apply(s, a), actions[1..]);
    }
  }

  // ---------------------------------------------------------------------------
  // Statistics

  function SumScores(feedbacks: seq<Feedback.FeedbackRecord>): int {
    if feedbacks == [] then 0 else feedbacks[0].score + SumScores(feedbacks[1..])
  }

  /** calculateAverageFeedbackScore: absent for no feedback, else the mean
      score, the value that times the count gives the total. */
  function AverageFeedbackScore(feedbacks: seq<Feedback.FeedbackRecord>): (r: Option<real>)
    ensures r.None? <==> feedbacks == []
    ensures r.Some? ==> r.value * |feedbacks| as real == SumScores(feedbacks) as real
  {
    if feedbacks == [] then None
    else
      var sum, n := SumScores(feedbacks) as real, |feedbacks| as real;
      assert (sum / n) * n == sum;
      Some(sum / n)
  }

  lemma {:induction false} SumScoresBounds(feedbacks: seq<Feedback.FeedbackRecord>, lo: int, hi: int)
    requires forall i :: 0 <= i < |feedbacks| ==> lo <= feedbacks[i].score <= hi
    ensures (lo as real) * (|feedbacks| as real) <= SumScores(feedbacks) as real <= (hi as real) * (|feedbacks| as real)
  {
    if feedbacks != [] {
      var n := |feedbacks| as real;
      SumScoresBounds(feedbacks[1..], lo, hi);
      assert (lo as real) * n == (lo as real) * (n - 1.0) + lo as real;
      assert (hi as real) * n == (hi as real) * (n - 1.0) + hi as real;
    }
  }

  /** The average is absent exactly for no feedback; otherwise it times the
      count is the total, and it lies between the lowest and highest possible
      score. */
  lemma AverageFeedbackScoreOutcome(feedbacks: seq<Feedback.FeedbackRecord>, lo: int, hi: int)
    requires forall i :: 0 <= i < |feedbacks| ==> lo <= feedbacks[i].score <= hi
    ensures var avg := AverageFeedbackScore(feedbacks);
      && (avg.None? <==> feedbacks == [])
      && (avg.Some? ==>
            avg.value * |feedbacks| as real == SumScores(feedbacks) as real
            && lo as real <= avg.value <= hi as real)
  {
    if feedbacks != [] {
      SumScoresBounds(feedbacks, lo, hi);
      MeanBetween(SumScores(feedbacks) as real, |feedbacks| as real, lo as real, hi as real);
    }
  }

  lemma MeanBetween(sum: real, n: real, lo: real, hi: real)
    requires n > 0.0 && lo * n <= sum <= hi * n
    ensures (sum / n) * n == sum && lo <= sum / n <= hi
  {
    assert (sum / n) * n == sum;
  }

  datatype SessionStatistics = SessionStatistics(
    sessionId: nat,
    totalStudentElements: nat,
    totalReferenceElements: nat,
    matchedElements: nat,
    overallSimilarity: real,
    feedbackCount: nat,
    averageFeedbackScore: Option<real>,
    overallScore: Option<int>,
    status: SessionStatus)

  /** getSessionStatistics. Statistics exist exactly when a comparison is
      present, so for a well-formed session exactly from READY on; they copy
      the comparison's counts. */
  function SessionStatisticsOf(s: GradingSession): (r: Result<SessionStatistics>)
    ensures r.Success? <==> s.comparison.Some?
    ensures WellFormed(s) ==> (r.Success? <==> s.status == Ready || s.status == Completed)
    ensures r.Success? ==>
      && r.value.sessionId == s.id
      && r.value.totalStudentElements == s.comparison.value.totalStudentElements
      && r.value.totalReferenceElements == s.comparison.value.totalReferenceElements
      && r.value.matchedElements == s.comparison.value.matchedElements
      && r.value.overallSimilarity == s.comparison.value.overallSimilarity
      && r.value.feedbackCount == |s.feedbacks|
      && r.value.averageFeedbackScore == AverageFeedbackScore(s.feedbacks)
      && (r.value.averageFeedbackScore.None? <==> s.feedbacks == [])
      && r.value.overallScore == s.overallScore && r.value.status == s.status
  {
    match s.comparison
    case None => Failure("Comparison not available for session: " + DecimalString(s.id))
    case Some(c) =>
      Success(SessionStatistics(s.id, c.totalStudentElements, c.totalReferenceElements, c.matchedElements,
                                c.overallSimilarity, |s.feedbacks|, AverageFeedbackScore(s.feedbacks),
                                s.overallScore, s.status))
  }
}
