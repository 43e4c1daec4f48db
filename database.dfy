/** The relational store behind the ORM: one map per table from primary key to row, ids handed
    out from per-table counters starting at 1, and the integrity rules the schema and the services
    keep together (foreign keys, the `uq_attempt_question` constraint, unique link tokens and
    e-mails, and the shape of a finished attempt). Deletions cascade as the relationships declare:
    a test takes its questions and attempts with it, and a question or an attempt its answers. */
module Database {
  import opened Wrappers
  import opened Models
  import Tables
  import Numeric

  /** A finished attempt has both a score and a finish time, an unfinished one neither; a score is
      a percentage with at most two decimals. */
  predicate AttemptShape(a: Attempt) {
    && (a.score.Some? <==> a.finishedAt.Some?)
    && (a.score.Some? ==> 0.0 <= a.score.value <= 100.0 && Numeric.IsHundredths(a.score.value))
  }

  /** The whole content of the store: one map per table and the next id of each table. */
  datatype DbState = DbState(
    tests: map<nat, Test>, questions: map<nat, Question>, attempts: map<nat, Attempt>,
    answers: map<nat, Answer>, users: map<nat, User>,
    nextTestId: nat, nextQuestionId: nat, nextAttemptId: nat, nextAnswerId: nat, nextUserId: nat)

  /** Every row sits under its own id, and every id is below its table's next id. */
  predicate KeysValid(s: DbState) {
    && 1 <= s.nextTestId && 1 <= s.nextQuestionId && 1 <= s.nextAttemptId && 1 <= s.nextAnswerId && 1 <= s.nextUserId
    && (forall k :: k in s.tests ==> 1 <= k < s.nextTestId && s.tests[k].id == k)
    && (forall k :: k in s.questions ==> 1 <= k < s.nextQuestionId && s.questions[k].id == k)
    && (forall k :: k in s.attempts ==> 1 <= k < s.nextAttemptId && s.attempts[k].id == k)
    && (forall k :: k in s.answers ==> 1 <= k < s.nextAnswerId && s.answers[k].id == k)
    && (forall k :: k in s.users ==> 1 <= k < s.nextUserId && s.users[k].id == k)
  }

  /** Foreign keys: questions and attempts belong to an existing test, and an answer to an
      existing attempt and to a question of that attempt's test. */
  predicate LinksValid(s: DbState) {
    && (forall k :: k in s.questions ==> s.questions[k].testId in s.tests)
    && (forall k :: k in s.attempts ==> s.attempts[k].testId in s.tests)
    && (forall k :: k in s.answers ==> AnswerLinked(s, s.answers[k]))
  }

  predicate AnswerLinked(s: DbState, x: Answer) {
    && x.attemptId in s.attempts
    && x.questionId in s.questions
    && s.questions[x.questionId].testId == s.attempts[x.attemptId].testId
  }

  /** `uq_attempt_question`, the unique `link_token` column and the unique `email` column. */
  predicate UniqueValid(s: DbState) {
    && (forall x, y :: (x in s.answers && y in s.answers && s.answers[x].attemptId == s.answers[y].attemptId
                        && s.answers[x].questionId == s.answers[y].questionId) ==> x == y)
    && (forall x, y :: (x in s.tests && y in s.tests && s.tests[x].linkToken.Some?
                        && s.tests[x].linkToken == s.tests[y].linkToken) ==> x == y)
    && (forall x, y :: (x in s.users && y in s.users && s.users[x].email == s.users[y].email) ==> x == y)
  }

  predicate ScoresValid(s: DbState) {
    forall k :: k in s.attempts ==> AttemptShape(s.attempts[k])
  }

  predicate Consistent(s: DbState) {
    KeysValid(s) && LinksValid(s) && UniqueValid(s) && ScoresValid(s)
  }

  /** `db.session.delete(question)`: the question and its answers are gone, nothing else changes. */
  function WithoutQuestion(s: DbState, id: nat): (r: DbState)
    ensures id !in r.questions
    ensures forall k :: k in r.answers ==> r.answers[k].questionId != id
  {
    s.(questions := s.questions - {id},
       answers := map k | k in s.answers && s.answers[k].questionId != id :: s.answers[k])
  }

  lemma WithoutQuestionValid(s: DbState, id: nat)
    requires Consistent(s)
    ensures Consistent(WithoutQuestion(s, id))
  {
    WithoutQuestionKeys(s, id);
    WithoutQuestionUnique(s, id);
    WithoutQuestionLinks(s, id);
  }

  lemma WithoutQuestionKeys(s: DbState, id: nat)
    requires KeysValid(s)
    ensures KeysValid(WithoutQuestion(s, id))
  {
  }

  lemma WithoutQuestionUnique(s: DbState, id: nat)
    requires UniqueValid(s)
    ensures UniqueValid(WithoutQuestion(s, id))
  {
  }

  lemma WithoutQuestionLinks(s: DbState, id: nat)
    requires LinksValid(s)
    ensures LinksValid(WithoutQuestion(s, id))
  {
    var r := WithoutQuestion(s, id);
    forall k | k in r.answers ensures AnswerLinked(r, r.answers[k]) {
      assert AnswerLinked(s, s.answers[k]);
    }
  }

  /** `db.session.delete(test)`: the test, its questions, its attempts and all their answers are
      gone, nothing else changes. */
  function WithoutTest(s: DbState, id: nat): (r: DbState)
    requires LinksValid(s)
    ensures id !in r.tests
    ensures forall k :: k in r.questions ==> r.questions[k].testId != id
    ensures forall k :: k in r.attempts ==> r.attempts[k].testId != id
  {
    s.(tests := s.tests - {id},
       questions := map k | k in s.questions && s.questions[k].testId != id :: s.questions[k],
       attempts := map k | k in s.attempts && s.attempts[k].testId != id :: s.attempts[k],
       answers := map k | k in s.answers && s.attempts[s.answers[k].attemptId].testId != id :: s.answers[k])
  }

  lemma WithoutTestValid(s: DbState, id: nat)
    requires Consistent(s)
    ensures Consistent(WithoutTest(s, id))
  {
    WithoutTestKeys(s, id);
    WithoutTestUnique(s, id);
    WithoutTestScores(s, id);
    WithoutTestLinks(s, id);
  }

  lemma WithoutTestKeys(s: DbState, id: nat)
    requires KeysValid(s) && LinksValid(s)
    ensures KeysValid(WithoutTest(s, id))
  {
  }

  lemma WithoutTestUnique(s: DbState, id: nat)
    requires UniqueValid(s) && LinksValid(s)
    ensures UniqueValid(WithoutTest(s, id))
  {
  }

  lemma WithoutTestScores(s: DbState, id: nat)
    requires ScoresValid(s) && LinksValid(s)
    ensures ScoresValid(WithoutTest(s, id))
  {
  }

  lemma WithoutTestLinks(s: DbState, id: nat)
    requires LinksValid(s)
    ensures LinksValid(WithoutTest(s, id))
  {
    var r := WithoutTest(s, id);
    forall k | k in r.answers ensures AnswerLinked(r, r.answers[k]) {
      assert AnswerLinked(s, s.answers[k]);
    }
  }

  /** A change to the users table leaves the foreign keys alone. */
  lemma LinksSame(s: DbState, r: DbState)
    requires LinksValid(s)
    requires r.tests == s.tests && r.questions == s.questions && r.attempts == s.attempts && r.answers == s.answers
    ensures LinksValid(r)
  {
    forall k | k in r.answers ensures AnswerLinked(r, r.answers[k]) {
      assert AnswerLinked(s, s.answers[k]);
    }
  }

  // Each change the store makes, stated on its state before (`s`) and after (`r`), keeps it
  // consistent. The `...Keys` lemmas do the key bookkeeping of one table.

  lemma WithTestValid(s: DbState, r: DbState, t: Test)
    requires Consistent(s) && t.id == s.nextTestId
    requires t.linkToken.Some? ==> forall k :: k in s.tests ==> s.tests[k].linkToken != t.linkToken
    requires r == s.(tests := s.tests[t.id := t], nextTestId := t.id + 1)
    ensures Consistent(r)
  {
    TestKeys(s, r, t);
    TestUnique(s, r, t);
    LinksGrow(s, r);
  }

  lemma PutTestValid(s: DbState, r: DbState, t: Test)
    requires Consistent(s) && t.id in s.tests
    requires t.linkToken.Some? ==> forall k :: k in s.tests && k != t.id ==> s.tests[k].linkToken != t.linkToken
    requires r == s.(tests := s.tests[t.id := t])
    ensures Consistent(r)
  {
    TestKeys(s, r, t);
    TestUnique(s, r, t);
    LinksGrow(s, r);
  }

  lemma TestUnique(s: DbState, r: DbState, t: Test)
    requires UniqueValid(s)
    requires t.linkToken.Some? ==> forall k :: k in s.tests && k != t.id ==> s.tests[k].linkToken != t.linkToken
    requires r == s.(tests := s.tests[t.id := t], nextTestId := r.nextTestId)
    ensures UniqueValid(r)
  {
  }

  lemma TestKeys(s: DbState, r: DbState, t: Test)
    requires KeysValid(s) && 1 <= t.id <= s.nextTestId
    requires r == s.(tests := s.tests[t.id := t], nextTestId := r.nextTestId)
    requires r.nextTestId == if t.id == s.nextTestId then t.id + 1 else s.nextTestId
    ensures KeysValid(r)
  {
  }

  /** Tables that only gain keys, with the questions and attempts keeping their tests, keep
      every link. */
  lemma LinksGrow(s: DbState, r: DbState)
    requires LinksValid(s)
    requires s.tests.Keys <= r.tests.Keys && s.questions.Keys <= r.questions.Keys && s.attempts.Keys <= r.attempts.Keys
    requires forall k :: k in s.questions ==> r.questions[k].testId == s.questions[k].testId
    requires forall k :: k in s.attempts ==> r.attempts[k].testId == s.attempts[k].testId
    requires forall k :: k in r.questions && k !in s.questions ==> r.questions[k].testId in r.tests
    requires forall k :: k in r.attempts && k !in s.attempts ==> r.attempts[k].testId in r.tests
    requires r.answers == s.answers
    ensures LinksValid(r)
  {
    forall k | k in r.answers ensures AnswerLinked(r, r.answers[k]) {
      assert AnswerLinked(s, s.answers[k]);
    }
  }

  lemma WithQuestionValid(s: DbState, r: DbState, q: Question)
    requires Consistent(s) && q.id == s.nextQuestionId && q.testId in s.tests
    requires r == s.(questions := s.questions[q.id := q], nextQuestionId := q.id + 1)
    ensures Consistent(r)
  {
    QuestionKeys(s, r, q);
    LinksGrow(s, r);
  }

  lemma PutQuestionValid(s: DbState, r: DbState, q: Question)
    requires Consistent(s) && q.id in s.questions && q.testId == s.questions[q.id].testId
    requires r == s.(questions := s.questions[q.id := q])
    ensures Consistent(r)
  {
    QuestionKeys(s, r, q);
    LinksGrow(s, r);
  }

  lemma QuestionKeys(s: DbState, r: DbState, q: Question)
    requires KeysValid(s) && 1 <= q.id <= s.nextQuestionId
    requires r == s.(questions := s.questions[q.id := q], nextQuestionId := r.nextQuestionId)
    requires r.nextQuestionId == if q.id == s.nextQuestionId then q.id + 1 else s.nextQuestionId
    ensures KeysValid(r)
  {
  }

  lemma WithAttemptValid(s: DbState, r: DbState, a: Attempt)
    requires Consistent(s) && a.id == s.nextAttemptId && a.testId in s.tests && a.score.None? && a.finishedAt.None?
    requires r == s.(attempts := s.attempts[a.id := a], nextAttemptId := a.id + 1)
    ensures Consistent(r)
  {
    AttemptKeys(s, r, a);
    AttemptScores(s, r, a);
    LinksGrow(s, r);
  }

  lemma PutAttemptValid(s: DbState, r: DbState, a: Attempt)
    requires Consistent(s) && a.id in s.attempts && a.testId == s.attempts[a.id].testId && AttemptShape(a)
    requires r == s.(attempts := s.attempts[a.id := a])
    ensures Consistent(r)
  {
    AttemptKeys(s, r, a);
    AttemptScores(s, r, a);
    LinksGrow(s, r);
  }

  lemma AttemptKeys(s: DbState, r: DbState, a: Attempt)
    requires KeysValid(s) && 1 <= a.id <= s.nextAttemptId
    requires r == s.(attempts := s.attempts[a.id := a], nextAttemptId := r.nextAttemptId)
    requires r.nextAttemptId == if a.id == s.nextAttemptId then a.id + 1 else s.nextAttemptId
    ensures KeysValid(r)
  {
  }

  lemma AttemptScores(s: DbState, r: DbState, a: Attempt)
    requires ScoresValid(s) && AttemptShape(a)
    requires r == s.(attempts := s.attempts[a.id := a], nextAttemptId := r.nextAttemptId)
    ensures ScoresValid(r)
  {
  }

  lemma WithAnswerValid(s: DbState, r: DbState, x: Answer)
    requires Consistent(s) && x.id == s.nextAnswerId && AnswerLinked(s, x)
    requires forall k :: k in s.answers ==> !(s.answers[k].attemptId == x.attemptId && s.answers[k].questionId == x.questionId)
    requires r == s.(answers := s.answers[x.id := x], nextAnswerId := x.id + 1)
    ensures Consistent(r)
  {
    AnswerKeys(s, r, x);
    AnswerLinks(s, r, x);
    AnswerUnique(s, r, x);
  }

  lemma PutAnswerValid(s: DbState, r: DbState, x: Answer)
    requires Consistent(s) && x.id in s.answers
    requires x.attemptId == s.answers[x.id].attemptId && x.questionId == s.answers[x.id].questionId
    requires r == s.(answers := s.answers[x.id := x])
    ensures Consistent(r)
  {
    assert AnswerLinked(s, s.answers[x.id]);
    AnswerKeys(s, r, x);
    AnswerLinks(s, r, x);
    AnswerUnique(s, r, x);
  }

  lemma AnswerUnique(s: DbState, r: DbState, x: Answer)
    requires UniqueValid(s)
    requires forall k :: k in s.answers && k != x.id ==> !(s.answers[k].attemptId == x.attemptId && s.answers[k].questionId == x.questionId)
    requires r == s.(answers := s.answers[x.id := x], nextAnswerId := r.nextAnswerId)
    ensures UniqueValid(r)
  {
  }

  lemma AnswerKeys(s: DbState, r: DbState, x: Answer)
    requires KeysValid(s) && 1 <= x.id <= s.nextAnswerId
    requires r == s.(answers := s.answers[x.id := x], nextAnswerId := r.nextAnswerId)
    requires r.nextAnswerId == if x.id == s.nextAnswerId then x.id + 1 else s.nextAnswerId
    ensures KeysValid(r)
  {
  }

  lemma AnswerLinks(s: DbState, r: DbState, x: Answer)
    requires LinksValid(s) && AnswerLinked(s, x)
    requires r == s.(answers := s.answers[x.id := x], nextAnswerId := r.nextAnswerId)
    ensures LinksValid(r)
  {
  }

  lemma WithUserValid(s: DbState, r: DbState, u: User)
    requires Consistent(s) && u.id == s.nextUserId
    requires forall k :: k in s.users ==> s.users[k].email != u.email
    requires r == s.(users := s.users[u.id := u], nextUserId := u.id + 1)
    ensures Consistent(r)
  {
    UserKeys(s, r, u);
    UserUnique(s, r, u);
    LinksSame(s, r);
  }

  lemma PutUserValid(s: DbState, r: DbState, u: User)
    requires Consistent(s) && u.id in s.users
    requires forall k :: k in s.users && k != u.id ==> s.users[k].email != u.email
    requires r == s.(users := s.users[u.id := u])
    ensures Consistent(r)
  {
    UserKeys(s, r, u);
    UserUnique(s, r, u);
    LinksSame(s, r);
  }

  lemma UserUnique(s: DbState, r: DbState, u: User)
    requires UniqueValid(s)
    requires forall k :: k in s.users && k != u.id ==> s.users[k].email != u.email
    requires r == s.(users := s.users[u.id := u], nextUserId := r.nextUserId)
    ensures UniqueValid(r)
  {
  }

  lemma UserKeys(s: DbState, r: DbState, u: User)
    requires KeysValid(s) && 1 <= u.id <= s.nextUserId
    requires r == s.(users := s.users[u.id := u], nextUserId := r.nextUserId)
    requires r.nextUserId == if u.id == s.nextUserId then u.id + 1 else s.nextUserId
    ensures KeysValid(r)
  {
  }

  /** `test.questions`: the questions of a test, in id order. */
  function QuestionsOf(s: DbState, testId: nat): (qs: seq<Question>)
    requires KeysValid(s)
    ensures forall i :: 0 <= i < |qs| ==> qs[i] in s.questions.Values && qs[i].testId == testId
    ensures forall k :: k in s.questions && s.questions[k].testId == testId ==> s.questions[k] in qs
  {
    Tables.Rows(s.questions, Tables.Ids(s.questions, s.nextQuestionId, (q: Question) => q.testId == testId))
  }

  /** `test.attempts`, in id order. */
  function AttemptsOf(s: DbState, testId: nat): (as_: seq<Attempt>)
    requires KeysValid(s)
    ensures forall i :: 0 <= i < |as_| ==> as_[i] in s.attempts.Values && as_[i].testId == testId
    ensures forall k :: k in s.attempts && s.attempts[k].testId == testId ==> s.attempts[k] in as_
  {
    Tables.Rows(s.attempts, Tables.Ids(s.attempts, s.nextAttemptId, (a: Attempt) => a.testId == testId))
  }

  /** `attempt.answers` and `Answer.query.filter_by(attempt_id=...)`, in id order. */
  function AnswersOf(s: DbState, attemptId: nat): (xs: seq<Answer>)
    requires KeysValid(s)
    ensures forall i :: 0 <= i < |xs| ==> xs[i] in s.answers.Values && xs[i].attemptId == attemptId
    ensures forall k :: k in s.answers && s.answers[k].attemptId == attemptId ==> s.answers[k] in xs
  {
    Tables.Rows(s.answers, Tables.Ids(s.answers, s.nextAnswerId, (x: Answer) => x.attemptId == attemptId))
  }

  /** The answer stored for (attempt, question), if any. */
  function AnswerFor(s: DbState, attemptId: nat, questionId: nat): (r: Option<nat>)
    requires KeysValid(s)
    ensures r.Some? ==> r.value in s.answers && s.answers[r.value].attemptId == attemptId
                        && s.answers[r.value].questionId == questionId
    ensures r.None? ==> forall k :: k in s.answers ==> !(s.answers[k].attemptId == attemptId && s.answers[k].questionId == questionId)
  {
    var ks := Tables.Ids(s.answers, s.nextAnswerId, (x: Answer) => x.attemptId == attemptId && x.questionId == questionId);
    if ks == [] then None else Some(ks[0])
  }

  /** `Test.query.filter_by(link_token=...).first()`. */
  function TestByToken(s: DbState, token: string): (r: Option<nat>)
    requires KeysValid(s)
    ensures r.Some? ==> r.value in s.tests && s.tests[r.value].linkToken == Some(token)
    ensures r.None? ==> forall k :: k in s.tests ==> s.tests[k].linkToken != Some(token)
  {
    var ks := Tables.Ids(s.tests, s.nextTestId, (t: Test) => t.linkToken == Some(token));
    if ks == [] then None else Some(ks[0])
  }

  /** `User.query.filter_by(email=...).first()`. */
  function UserByEmail(s: DbState, email: string): (r: Option<nat>)
    requires KeysValid(s)
    ensures r.Some? ==> r.value in s.users && s.users[r.value].email == email
    ensures r.None? ==> forall k :: k in s.users ==> s.users[k].email != email
  {
    var ks := Tables.Ids(s.users, s.nextUserId, (u: User) => u.email == email);
    if ks == [] then None else Some(ks[0])
  }

  function QuestionIds(xs: seq<Answer>): (r: seq<nat>)
    ensures |r| == |xs| && forall i :: 0 <= i < |xs| ==> r[i] == xs[i].questionId
  {
    seq(|xs|, i requires 0 <= i < |xs| => xs[i].questionId)
  }

  lemma AnswerQuestionsDistinct(s: DbState, attemptId: nat)
    requires KeysValid(s) && UniqueValid(s)
    ensures Tables.Distinct(QuestionIds(AnswersOf(s, attemptId)))
  {
    var xs := AnswersOf(s, attemptId);
    var ids := Tables.Ids(s.answers, s.nextAnswerId, (x: Answer) => x.attemptId == attemptId);
    var qids := QuestionIds(xs);
    forall i, j | 0 <= i < j < |qids| ensures qids[i] != qids[j] {
      assert ids[i] < ids[j];
      assert xs[i] == s.answers[ids[i]] && xs[j] == s.answers[ids[j]];
    }
  }

  lemma TestQuestionCount(s: DbState, testId: nat, qids: set<nat>)
    requires KeysValid(s)
    requires forall k :: k in qids ==> k in s.questions && s.questions[k].testId == testId
    ensures |qids| <= |QuestionsOf(s, testId)|
  {
    var qsIds := Tables.Ids(s.questions, s.nextQuestionId, (q: Question) => q.testId == testId);
    assert qids <= set i | i in qsIds;
    Tables.SubsetCard(qids, set i | i in qsIds);
    Tables.DistinctCard(qsIds);
  }

  /** Two answers of one attempt never share a question, so an attempt has at most as many
      answers as its test has questions. */
  lemma AnswersBounded(s: DbState, attemptId: nat)
    requires Consistent(s) && attemptId in s.attempts
    ensures |AnswersOf(s, attemptId)| <= |QuestionsOf(s, s.attempts[attemptId].testId)|
  {
    var testId := s.attempts[attemptId].testId;
    var xs := AnswersOf(s, attemptId);
    var qids := QuestionIds(xs);
    var testQids := set k | k in s.questions && s.questions[k].testId == testId;
    AnswerQuestionsDistinct(s, attemptId);
    forall i | 0 <= i < |qids| ensures qids[i] in testQids {
      assert AnswerLinked(s, xs[i]);
    }
    Tables.DistinctWithin(qids, testQids);
    TestQuestionCount(s, testId, testQids);
  }

  class Store {
    var tests: map<nat, Test>
    var questions: map<nat, Question>
    var attempts: map<nat, Attempt>
    var answers: map<nat, Answer>
    var users: map<nat, User>
    var nextTestId: nat
    var nextQuestionId: nat
    var nextAttemptId: nat
    var nextAnswerId: nat
    var nextUserId: nat

    function State(): DbState
      reads this
    {
      DbState(tests, questions, attempts, answers, users,
              nextTestId, nextQuestionId, nextAttemptId, nextAnswerId, nextUserId)
    }

    predicate Valid()
      reads this
    {
      Consistent(State())
    }

    /** An empty database. */
    constructor ()
      ensures Valid()
      ensures State() == DbState(map[], map[], map[], map[], map[], 1, 1, 1, 1, 1)
    {
      tests, questions, attempts, answers, users := map[], map[], map[], map[], map[];
      nextTestId, nextQuestionId, nextAttemptId, nextAnswerId, nextUserId := 1, 1, 1, 1, 1;
    }

    // ---------------------------------------------------------------- changes

    method AddTest(title: string, description: Option<string>, userId: nat, isPublished: bool,
                   linkToken: Option<string>, now: nat) returns (id: nat)
      requires Valid()
      requires linkToken.Some? ==> TestByToken(State(), linkToken.value).None?
      modifies this
      ensures Valid()
      ensures id == old(nextTestId) && nextTestId == id + 1 && id !in old(tests)
      ensures tests == old(tests)[id := Test(id, title, description, userId, isPublished, linkToken, now, now)]
      ensures State() == old(State()).(tests := tests, nextTestId := nextTestId)
    {
      id := nextTestId;
      tests := tests[id := Test(id, title, description, userId, isPublished, linkToken, now, now)];
      nextTestId := nextTestId + 1;
      WithTestValid(old(State()), State(), tests[id]);
    }

    /** Store a new version of test `id`; the new token, if any, is used by no other test. */
    method PutTest(id: nat, t: Test)
      requires Valid() && id in tests && t.id == id
      requires t.linkToken.Some? ==> forall k :: k in tests && k != id ==> tests[k].linkToken != t.linkToken
      modifies this
      ensures Valid()
      ensures State() == old(State()).(tests := old(tests)[id := t])
    {
      tests := tests[id := t];
      PutTestValid(old(State()), State(), t);
    }

    /** `db.session.delete(test)`, with its cascades. */
    method RemoveTest(id: nat)
      requires Valid() && id in tests
      modifies this
      ensures Valid()
      ensures State() == WithoutTest(old(State()), id)
    {
      var r := WithoutTest(State(), id);
      tests, questions, attempts, answers := r.tests, r.questions, r.attempts, r.answers;
      assert State() == r;
      WithoutTestValid(old(State()), id);
    }

    method AddQuestion(testId: nat, text: string, qtype: string, options: Option<string>,
                       correctAnswer: Option<string>, orderIndex: int) returns (id: nat)
      requires Valid() && testId in tests
      modifies this
      ensures Valid()
      ensures id == old(nextQuestionId) && nextQuestionId == id + 1 && id !in old(questions)
      ensures questions == old(questions)[id := Question(id, testId, text, qtype, options, correctAnswer, orderIndex)]
      ensures State() == old(State()).(questions := questions, nextQuestionId := nextQuestionId)
    {
      id := nextQuestionId;
      var q := Question(id, testId, text, qtype, options, correctAnswer, orderIndex);
      questions := questions[id := q];
      nextQuestionId := nextQuestionId + 1;
      WithQuestionValid(old(State()), State(), q);
    }

    /** Store a new version of question `id`, which stays in its test. */
    method PutQuestion(id: nat, q: Question)
      requires Valid() && id in questions && q.id == id && q.testId == questions[id].testId
      modifies this
      ensures Valid()
      ensures State() == old(State()).(questions := old(questions)[id := q])
    {
      questions := questions[id := q];
      PutQuestionValid(old(State()), State(), q);
    }

    /** `db.session.delete(question)`, with its cascade. */
    method RemoveQuestion(id: nat)
      requires Valid() && id in questions
      modifies this
      ensures Valid()
      ensures State() == WithoutQuestion(old(State()), id)
    {
      var r := WithoutQuestion(State(), id);
      questions, answers := r.questions, r.answers;
      assert State() == r;
      WithoutQuestionValid(old(State()), id);
    }

    method AddAttempt(testId: nat, userId: nat, now: nat) returns (id: nat)
      requires Valid() && testId in tests
      modifies this
      ensures Valid()
      ensures id == old(nextAttemptId) && nextAttemptId == id + 1 && id !in old(attempts)
      ensures attempts == old(attempts)[id := Attempt(id, testId, userId, None, now, None)]
      ensures State() == old(State()).(attempts := attempts, nextAttemptId := nextAttemptId)
    {
      id := nextAttemptId;
      attempts := attempts[id := Attempt(id, testId, userId, None, now, None)];
      nextAttemptId := nextAttemptId + 1;
      WithAttemptValid(old(State()), State(), attempts[id]);
    }

    /** Record the score and the finish time of attempt `id` together. */
    method CloseAttempt(id: nat, score: real, now: nat)
      requires Valid() && id in attempts
      requires 0.0 <= score <= 100.0 && Numeric.IsHundredths(score)
      modifies this
      ensures Valid()
      ensures attempts == old(attempts)[id := old(attempts)[id].(score := Some(score), finishedAt := Some(now))]
      ensures State() == old(State()).(attempts := attempts)
    {
      attempts := attempts[id := attempts[id].(score := Some(score), finishedAt := Some(now))];
      PutAttemptValid(old(State()), State(), attempts[id]);
    }

    method AddAnswer(attemptId: nat, questionId: nat, userAnswer: Option<string>, isCorrect: Option<bool>)
      returns (id: nat)
      requires Valid() && attemptId in attempts && questionId in questions
      requires questions[questionId].testId == attempts[attemptId].testId
      requires AnswerFor(State(), attemptId, questionId).None?
      modifies this
      ensures Valid()
      ensures id == old(nextAnswerId) && nextAnswerId == id + 1 && id !in old(answers)
      ensures answers == old(answers)[id := Answer(id, attemptId, questionId, userAnswer, isCorrect)]
      ensures State() == old(State()).(answers := answers, nextAnswerId := nextAnswerId)
    {
      id := nextAnswerId;
      answers := answers[id := Answer(id, attemptId, questionId, userAnswer, isCorrect)];
      nextAnswerId := nextAnswerId + 1;
      WithAnswerValid(old(State()), State(), answers[id]);
    }

    /** Overwrite the payload and the verdict of answer `id`. */
    method PutAnswer(id: nat, userAnswer: Option<string>, isCorrect: Option<bool>)
      requires Valid() && id in answers
      modifies this
      ensures Valid()
      ensures answers == old(answers)[id := old(answers)[id].(userAnswer := userAnswer, isCorrect := isCorrect)]
      ensures State() == old(State()).(answers := answers)
    {
      answers := answers[id := answers[id].(userAnswer := userAnswer, isCorrect := isCorrect)];
      PutAnswerValid(old(State()), State(), answers[id]);
    }

    method AddUser(name: string, email: string, passwordHash: string) returns (id: nat)
      requires Valid() && UserByEmail(State(), email).None?
      modifies this
      ensures Valid()
      ensures id == old(nextUserId) && nextUserId == id + 1 && id !in old(users)
      ensures users == old(users)[id := User(id, name, email, passwordHash)]
      ensures State() == old(State()).(users := users, nextUserId := nextUserId)
    {
      id := nextUserId;
      users := users[id := User(id, name, email, passwordHash)];
      nextUserId := nextUserId + 1;
      WithUserValid(old(State()), State(), users[id]);
    }

    /** Store a new version of user `id`; its e-mail is used by no other user. */
    method PutUser(id: nat, u: User)
      requires Valid() && id in users && u.id == id
      requires forall k :: k in users && k != id ==> users[k].email != u.email
      modifies this
      ensures Valid()
      ensures State() == old(State()).(users := old(users)[id := u])
    {
      users := users[id := u];
      PutUserValid(old(State()), State(), u);
    }
  }
}
