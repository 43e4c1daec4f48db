/** The attempt lifecycle of `backend/services/attempt_service.py`: an attempt is started, answers
    are submitted (each graded on arrival and upserted by (attempt, question)), and the attempt is
    finished once, which fixes its score and finish time. */
module AttemptService {
  import opened Wrappers
  import opened JsonValues
  import opened Models
  import opened Grading
  import opened Database
  import Numeric

  /** The `is_correct` column of each answer, in order. */
  function Verdicts(xs: seq<Answer>): (r: seq<Option<bool>>)
    ensures |r| == |xs| && forall i :: 0 <= i < |xs| ==> r[i] == xs[i].isCorrect
  {
    seq(|xs|, i requires 0 <= i < |xs| => xs[i].isCorrect)
  }

  /** `calculate_score(attempt_id)`: 0 for a missing attempt or a test without questions,
      otherwise the percentage of the test's questions answered correctly. */
  function AttemptScore(s: DbState, attemptId: nat): (score: real)
    requires KeysValid(s)
    ensures attemptId !in s.attempts ==> score == 0.0
    // a test without questions scores 0 whatever was answered
    ensures attemptId in s.attempts && |QuestionsOf(s, s.attempts[attemptId].testId)| == 0 ==> score == 0.0
    ensures 0.0 <= score && Numeric.IsHundredths(score)
    ensures attemptId in s.attempts && |QuestionsOf(s, s.attempts[attemptId].testId)| > 0 ==>
              score == CalculateScore(|QuestionsOf(s, s.attempts[attemptId].testId)|, Verdicts(AnswersOf(s, attemptId)))
  {
    if attemptId !in s.attempts then 0.0
    else
      var total := |QuestionsOf(s, s.attempts[attemptId].testId)|;
      if total == 0 then 0.0 else CalculateScore(total, Verdicts(AnswersOf(s, attemptId)))
  }

  /** In a consistent store the score of an attempt is a percentage. */
  lemma AttemptScoreBounded(s: DbState, attemptId: nat)
    requires Consistent(s)
    ensures AttemptScore(s, attemptId) <= 100.0
  {
    if attemptId in s.attempts {
      AnswersBounded(s, attemptId);
    }
  }

  /** The checks `submit_answer` and `finish_attempt` share, in their order: the attempt exists,
      belongs to the caller and is not finished. */
  function OpenAttemptError(s: DbState, attemptId: nat, userId: nat): (e: Option<string>)
    ensures e.None? <==> attemptId in s.attempts && s.attempts[attemptId].userId == userId
                         && s.attempts[attemptId].finishedAt.None?
  {
    if attemptId !in s.attempts then Some("Attempt not found")
    else if s.attempts[attemptId].userId != userId then Some("Access denied")
    else if s.attempts[attemptId].finishedAt.Some? then Some("Attempt already finished")
    else None
  }

  /** All checks of `submit_answer`, in order; the question must belong to the attempt's test. */
  function SubmitError(s: DbState, attemptId: nat, questionId: nat, userId: nat): (e: Option<string>)
    ensures e.None? <==> OpenAttemptError(s, attemptId, userId).None? && questionId in s.questions
                         && s.questions[questionId].testId == s.attempts[attemptId].testId
    ensures OpenAttemptError(s, attemptId, userId).Some? ==> e == OpenAttemptError(s, attemptId, userId)
  {
    match OpenAttemptError(s, attemptId, userId)
    case Some(m) => Some(m)
    case None =>
      if questionId !in s.questions || s.questions[questionId].testId != s.attempts[attemptId].testId
      then Some("Question not found")
      else None
  }

  /** The row a submission writes: the existing answer for (attempt, question), or a new id. */
  function SubmitTarget(s: DbState, attemptId: nat, questionId: nat): nat
    requires KeysValid(s)
  {
    match AnswerFor(s, attemptId, questionId)
    case Some(k) => k
    case None => s.nextAnswerId
  }

  /** The store after a successful submission: the answer row for (attempt, question) is created,
      or the existing one overwritten, with the encoded payload and the verdict. */
  function Submitted(s: DbState, attemptId: nat, questionId: nat, payload: string, verdict: Option<bool>): (r: DbState)
    requires KeysValid(s)
  {
    var k := SubmitTarget(s, attemptId, questionId);
    s.(answers := s.answers[k := Answer(k, attemptId, questionId, Some(payload), verdict)],
       nextAnswerId := if k == s.nextAnswerId then k + 1 else s.nextAnswerId)
  }

  /** After a submission exactly one answer row exists for (attempt, question), holding the latest
      payload and verdict; every other answer row is as it was. */
  lemma SubmittedHoldsLatest(s: DbState, attemptId: nat, questionId: nat, payload: string, verdict: Option<bool>)
    requires Consistent(s)
    ensures var r := Submitted(s, attemptId, questionId, payload, verdict);
            && (exists k :: k in r.answers && r.answers[k].attemptId == attemptId && r.answers[k].questionId == questionId
                            && r.answers[k].userAnswer == Some(payload) && r.answers[k].isCorrect == verdict
                            && (forall k' :: (k' in r.answers && r.answers[k'].attemptId == attemptId
                                              && r.answers[k'].questionId == questionId) ==> k' == k))
            && (forall k :: k in s.answers && !(s.answers[k].attemptId == attemptId && s.answers[k].questionId == questionId)
                            ==> k in r.answers && r.answers[k] == s.answers[k])
  {
    var r := Submitted(s, attemptId, questionId, payload, verdict);
    var k := SubmitTarget(s, attemptId, questionId);
    assert r.answers[k].userAnswer == Some(payload);
  }

  lemma SubmittedKeys(s: DbState, attemptId: nat, questionId: nat, payload: string, verdict: Option<bool>)
    requires KeysValid(s)
    ensures KeysValid(Submitted(s, attemptId, questionId, payload, verdict))
  {
  }

  lemma SubmittedFindsTarget(s: DbState, attemptId: nat, questionId: nat, payload: string, verdict: Option<bool>)
    requires KeysValid(s) && UniqueValid(s)
    ensures KeysValid(Submitted(s, attemptId, questionId, payload, verdict))
    ensures AnswerFor(Submitted(s, attemptId, questionId, payload, verdict), attemptId, questionId)
              == Some(SubmitTarget(s, attemptId, questionId))
  {
    SubmittedKeys(s, attemptId, questionId, payload, verdict);
    var once := Submitted(s, attemptId, questionId, payload, verdict);
    var k := SubmitTarget(s, attemptId, questionId);
    var found := AnswerFor(once, attemptId, questionId);
    assert k in once.answers && once.answers[k].attemptId == attemptId && once.answers[k].questionId == questionId;
    assert found.Some?;
  }

  /** Submitting twice for the same question leaves the rows of submitting once, and the second
      payload wins: the result is that of submitting only the second answer. */
  lemma ResubmitAddsNoRow(s: DbState, attemptId: nat, questionId: nat, p1: string, v1: Option<bool>, p2: string, v2: Option<bool>)
    requires KeysValid(s) && UniqueValid(s)
    ensures KeysValid(Submitted(s, attemptId, questionId, p1, v1))
    ensures var once := Submitted(s, attemptId, questionId, p1, v1);
            var twice := Submitted(once, attemptId, questionId, p2, v2);
            twice.answers.Keys == once.answers.Keys && twice == Submitted(s, attemptId, questionId, p2, v2)
  {
    SubmittedFindsTarget(s, attemptId, questionId, p1, v1);
    var k := SubmitTarget(s, attemptId, questionId);
    var x := Answer(k, attemptId, questionId, Some(p2), v2);
    assert s.answers[k := Answer(k, attemptId, questionId, Some(p1), v1)][k := x] == s.answers[k := x];
  }

  /** The store after `finish_attempt`: score and finish time set together. */
  function Finished(s: DbState, attemptId: nat, now: nat): (r: DbState)
    requires KeysValid(s) && attemptId in s.attempts
    ensures attemptId in r.attempts && r.attempts[attemptId].finishedAt == Some(now)
    ensures r.attempts[attemptId].score == Some(AttemptScore(s, attemptId))
  {
    s.(attempts := s.attempts[attemptId := s.attempts[attemptId].(score := Some(AttemptScore(s, attemptId)),
                                                                  finishedAt := Some(now))])
  }

  /** A finished attempt stays finished: a second `finish_attempt` or any `submit_answer` on it
      fails with 'Attempt already finished' for its owner. */
  lemma FinishIsFinal(s: DbState, attemptId: nat, questionId: nat, now: nat)
    requires KeysValid(s) && attemptId in s.attempts && s.attempts[attemptId].finishedAt.None?
    ensures var r := Finished(s, attemptId, now);
            var owner := r.attempts[attemptId].userId;
            && OpenAttemptError(r, attemptId, owner) == Some("Attempt already finished")
            && SubmitError(r, attemptId, questionId, owner) == Some("Attempt already finished")
  {
  }

  /** `start_attempt`: any user may start an attempt on any existing test. */
  method StartAttempt(db: Store, c: Codec, testId: nat, userId: nat, now: nat) returns (r: Result<AttemptDict, string>)
    requires db.Valid()
    modifies db
    ensures db.Valid()
    ensures testId !in old(db.tests) ==> r == Err("Test not found") && db.State() == old(db.State())
    ensures testId in old(db.tests) ==>
              var id := old(db.nextAttemptId);
              var a := Attempt(id, testId, userId, None, now, None);
              && r == Ok(AttemptToDict(c, a, [], false))
              && db.State() == old(db.State()).(attempts := old(db.attempts)[id := a], nextAttemptId := id + 1)
  {
    if testId !in db.tests {
      return Err("Test not found");
    }
    var id := db.AddAttempt(testId, userId, now);
    r := Ok(AttemptToDict(c, db.attempts[id], [], false));
  }

  /** `submit_answer`: the checks in order, then the graded upsert; if grading raises, the
      transaction is rolled back. */
  method SubmitAnswer(db: Store, c: Codec, attemptId: nat, questionId: nat, data: Json, userId: nat)
    returns (r: Result<(), string>)
    requires db.Valid()
    modifies db
    ensures db.Valid()
    ensures SubmitError(old(db.State()), attemptId, questionId, userId).Some? ==>
              r == Err(SubmitError(old(db.State()), attemptId, questionId, userId).value)
    ensures SubmitError(old(db.State()), attemptId, questionId, userId).None? ==>
              var grade := CheckAnswer(c, old(db.questions)[questionId], data);
              && (grade.Raised? ==> r == Err("Error submitting answer"))
              && (grade.Graded? ==>
                    && r == Ok(())
                    && db.State() == Submitted(old(db.State()), attemptId, questionId, c.dumps(data), IsCorrectColumn(grade.verdict)))
    ensures r.Err? ==> db.State() == old(db.State())
  {
    var e := SubmitError(db.State(), attemptId, questionId, userId);
    if e.Some? {
      return Err(e.value);
    }
    var grade := CheckAnswer(c, db.questions[questionId], data);
    if grade.Raised? {
      return Err("Error submitting answer");
    }
    var verdict := IsCorrectColumn(grade.verdict);
    var existing := AnswerFor(db.State(), attemptId, questionId);
    if existing.Some? {
      db.PutAnswer(existing.value, Some(c.dumps(data)), verdict);
    } else {
      var _ := db.AddAnswer(attemptId, questionId, Some(c.dumps(data)), verdict);
    }
    r := Ok(());
  }

  /** `finish_attempt`: the checks in order, then score and finish time are set together. */
  method FinishAttempt(db: Store, attemptId: nat, userId: nat, now: nat) returns (r: Result<(real, nat), string>)
    requires db.Valid()
    modifies db
    ensures db.Valid()
    ensures OpenAttemptError(old(db.State()), attemptId, userId).Some? ==>
              r == Err(OpenAttemptError(old(db.State()), attemptId, userId).value) && db.State() == old(db.State())
    ensures OpenAttemptError(old(db.State()), attemptId, userId).None? ==>
              && r == Ok((AttemptScore(old(db.State()), attemptId), now))
              && db.State() == Finished(old(db.State()), attemptId, now)
  {
    var e := OpenAttemptError(db.State(), attemptId, userId);
    if e.Some? {
      return Err(e.value);
    }
    var score := AttemptScore(db.State(), attemptId);
    AttemptScoreBounded(db.State(), attemptId);
    db.CloseAttempt(attemptId, score, now);
    r := Ok((score, now));
  }

  /** `get_attempt_results`: the owner sees the attempt with its answers, finished or not. */
  function AttemptResults(s: DbState, c: Codec, attemptId: nat, userId: nat): (r: Result<AttemptDict, string>)
    requires KeysValid(s)
    ensures attemptId !in s.attempts ==> r == Err("Attempt not found")
    ensures attemptId in s.attempts && s.attempts[attemptId].userId != userId ==> r == Err("Access denied")
    ensures r.Ok? <==> attemptId in s.attempts && s.attempts[attemptId].userId == userId
    ensures r.Ok? ==> r.value.id == attemptId && r.value.answers.Some?
                      && |r.value.answers.value| == |AnswersOf(s, attemptId)|
    // the attempt's own fields, and every answer recorded for it, in id order
    ensures r.Ok? ==>
              var a := s.attempts[attemptId];
              && r.value.testId == a.testId && r.value.score == a.score
              && r.value.startedAt == a.startedAt && r.value.finishedAt == a.finishedAt
              && forall i :: 0 <= i < |AnswersOf(s, attemptId)| ==>
                   r.value.answers.value[i] == AnswerToDict(c, AnswersOf(s, attemptId)[i])
  {
    if attemptId !in s.attempts then Err("Attempt not found")
    else if s.attempts[attemptId].userId != userId then Err("Access denied")
    else Ok(AttemptToDict(c, s.attempts[attemptId], AnswersOf(s, attemptId), true))
  }
}
