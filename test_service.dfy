/** Test and question authoring of `backend/services/test_service.py`: ownership checks, partial
    updates, publishing with a link token, and the canonical form in which a question's correct
    answer is stored. */
module TestService {
  import opened Wrappers
  import opened JsonValues
  import opened Models
  import opened Grading
  import opened Database
  import PyText
  import Tables
  import Validation

  /** The row after an update that sets `updated_at` when some column actually changed. */
  function Touched(before: Test, after: Test, now: nat): (t: Test)
    ensures after == before ==> t == before
    ensures after != before ==> t.updatedAt == now
    ensures t.(updatedAt := after.updatedAt) == after
  {
    if after == before then before else after.(updatedAt := now)
  }

  /** The first two checks of `update_test`, `delete_test` and `publish_test`. */
  function OwnerError(s: DbState, testId: nat, userId: nat): (e: Option<string>)
    ensures e.None? <==> testId in s.tests && s.tests[testId].userId == userId
    ensures testId !in s.tests ==> e == Some("Test not found")
  {
    if testId !in s.tests then Some("Test not found")
    else if s.tests[testId].userId != userId then Some("Access denied")
    else None
  }

  /** `create_test`: a new draft without a token. */
  method CreateTest(db: Store, c: Codec, userId: nat, title: string, description: Option<string>, now: nat)
    returns (d: TestDict)
    requires db.Valid()
    modifies db
    ensures db.Valid()
    ensures var id := old(db.nextTestId);
            var t := Test(id, title, description, userId, false, None, now, now);
            && d == TestToDict(c, t, [], [], false)
            && db.State() == old(db.State()).(tests := old(db.tests)[id := t], nextTestId := id + 1)
  {
    var id := db.AddTest(title, description, userId, false, None, now);
    d := TestToDict(c, db.tests[id], [], [], false);
  }

  /** The ids of the tests a user authored, ascending. */
  function UserTestIds(s: DbState, userId: nat): (ks: seq<nat>)
    requires KeysValid(s)
    ensures forall i :: 0 <= i < |ks| ==> ks[i] in s.tests && s.tests[ks[i]].userId == userId
    ensures forall k :: k in s.tests && s.tests[k].userId == userId ==> k in ks
    ensures Tables.Ascending(ks)
  {
    Tables.Ids(s.tests, s.nextTestId, (t: Test) => t.userId == userId)
  }

  /** `get_user_tests`: one page of the tests a user authored, in id order. */
  function GetUserTests(s: DbState, c: Codec, userId: nat, skip: nat, limit: nat): (r: seq<TestDict>)
    requires KeysValid(s)
    ensures |r| <= limit
    // the window `[skip, skip + limit)` of the user's test ids, each test without its questions
    ensures var ids := Tables.Page(UserTestIds(s, userId), skip, limit);
            && |r| == |ids|
            && forall i :: 0 <= i < |r| ==>
                 r[i] == TestToDict(c, s.tests[ids[i]], [], AttemptsOf(s, ids[i]), false)
  {
    var ids := Tables.Page(UserTestIds(s, userId), skip, limit);
    seq(|ids|, i requires 0 <= i < |ids| => TestToDict(c, s.tests[ids[i]], [], AttemptsOf(s, ids[i]), false))
  }

  /** The page lists tests of that user only, in ascending id order, and a first page shorter
      than the limit lists every one of them. */
  lemma UserTestsInOrder(s: DbState, c: Codec, userId: nat, skip: nat, limit: nat)
    requires KeysValid(s)
    ensures var r := GetUserTests(s, c, userId, skip, limit);
            && |r| <= limit
            && (forall i :: 0 <= i < |r| ==> r[i].userId == userId && r[i].id in s.tests && r[i].questions.None?)
            && (forall i, j :: 0 <= i < j < |r| ==> r[i].id < r[j].id)
            && (skip == 0 && |r| < limit ==> |r| == |UserTestIds(s, userId)|)
  {
    Tables.PageAscending(UserTestIds(s, userId), skip, limit);
  }

  /** `get_test`: a caller id of `None` or 0 (falsy) skips the ownership check. */
  function GetTest(s: DbState, c: Codec, testId: nat, userId: Option<nat>): (r: Result<TestDict, string>)
    requires KeysValid(s)
    ensures testId !in s.tests ==> r == Err("Test not found")
    ensures r.Ok? <==> testId in s.tests && (userId.None? || userId.value == 0 || s.tests[testId].userId == userId.value)
    ensures r.Ok? ==> r.value.id == testId && r.value.questions.Some?
                      && |r.value.questions.value| == |QuestionsOf(s, testId)|
    // every question of the test, in `order_index` order, without its correct answer
    ensures r.Ok? ==>
              var sorted := SortByIndex(QuestionsOf(s, testId));
              && r.value.title == s.tests[testId].title && r.value.description == s.tests[testId].description
              && r.value.attemptsCount == |AttemptsOf(s, testId)|
              && multiset(sorted) == multiset(QuestionsOf(s, testId))
              && |sorted| == |r.value.questions.value|
              && forall i :: 0 <= i < |sorted| ==>
                   r.value.questions.value[i] == QuestionToDict(c, sorted[i], false)
  {
    if testId !in s.tests then Err("Test not found")
    else if userId.Some? && userId.value != 0 && s.tests[testId].userId != userId.value then Err("Access denied")
    else Ok(TestToDict(c, s.tests[testId], QuestionsOf(s, testId), AttemptsOf(s, testId), true))
  }

  /** The keys of `data` that `update_test` reads: `title` and `description`, each absent or given. */
  datatype TestPatch = TestPatch(title: Option<string>, description: Option<Option<string>>)

  function PatchTest(t: Test, p: TestPatch): (r: Test)
    ensures r.title == (if p.title.Some? then p.title.value else t.title)
    ensures r.description == (if p.description.Some? then p.description.value else t.description)
    ensures r.(title := t.title, description := t.description) == t
  {
    t.(title := if p.title.Some? then p.title.value else t.title,
       description := if p.description.Some? then p.description.value else t.description)
  }

  /** An empty patch changes nothing, and applying a patch twice is applying it once. */
  lemma PatchTestIdempotent(t: Test, p: TestPatch)
    ensures PatchTest(t, TestPatch(None, None)) == t
    ensures PatchTest(PatchTest(t, p), p) == PatchTest(t, p)
  {
  }

  /** `update_test`: only the keys present in `data` change. */
  method UpdateTest(db: Store, c: Codec, testId: nat, userId: nat, patch: TestPatch, now: nat)
    returns (r: Result<TestDict, string>)
    requires db.Valid()
    modifies db
    ensures db.Valid()
    ensures OwnerError(old(db.State()), testId, userId).Some? ==>
              r == Err(OwnerError(old(db.State()), testId, userId).value) && db.State() == old(db.State())
    ensures OwnerError(old(db.State()), testId, userId).None? ==>
              var t := Touched(old(db.tests)[testId], PatchTest(old(db.tests)[testId], patch), now);
              && db.State() == old(db.State()).(tests := old(db.tests)[testId := t])
              && r == Ok(TestToDict(c, t, [], AttemptsOf(db.State(), testId), false))
  {
    var e := OwnerError(db.State(), testId, userId);
    if e.Some? {
      return Err(e.value);
    }
    var t := Touched(db.tests[testId], PatchTest(db.tests[testId], patch), now);
    db.PutTest(testId, t);
    r := Ok(TestToDict(c, t, [], AttemptsOf(db.State(), testId), false));
  }

  /** `delete_test`: the test goes, with its questions, attempts and answers. */
  method DeleteTest(db: Store, testId: nat, userId: nat) returns (r: Result<bool, string>)
    requires db.Valid()
    modifies db
    ensures db.Valid()
    ensures OwnerError(old(db.State()), testId, userId).Some? ==>
              r == Err(OwnerError(old(db.State()), testId, userId).value) && db.State() == old(db.State())
    ensures OwnerError(old(db.State()), testId, userId).None? ==>
              r == Ok(true) && db.State() == WithoutTest(old(db.State()), testId)
  {
    var e := OwnerError(db.State(), testId, userId);
    if e.Some? {
      return Err(e.value);
    }
    db.RemoveTest(testId);
    r := Ok(true);
  }

  const NoQuestionsMessage := "Cannot publish test without questions. Add at least one question."

  /** `publish_test`: refused for a test without questions; otherwise published under a new
      token `token` (`uuid4()`, passed in) on every call. A token another test already holds
      violates the unique column and the commit fails. */
  method PublishTest(db: Store, c: Codec, testId: nat, userId: nat, token: string, now: nat)
    returns (r: Result<TestDict, string>)
    requires db.Valid()
    modifies db
    ensures db.Valid()
    ensures r.Err? ==> db.State() == old(db.State())
    ensures OwnerError(old(db.State()), testId, userId).Some? ==>
              r == Err(OwnerError(old(db.State()), testId, userId).value)
    ensures OwnerError(old(db.State()), testId, userId).None? && |QuestionsOf(old(db.State()), testId)| == 0 ==>
              r == Err(NoQuestionsMessage)
    ensures r.Ok? ==>
              && OwnerError(old(db.State()), testId, userId).None? && |QuestionsOf(old(db.State()), testId)| > 0
              && var before := old(db.tests)[testId];
                 var t := Touched(before, before.(isPublished := true, linkToken := Some(token)), now);
                 db.State() == old(db.State()).(tests := old(db.tests)[testId := t])
                 && r.value.isPublished && r.value.linkToken == Some(token)
    ensures OwnerError(old(db.State()), testId, userId).None? && |QuestionsOf(old(db.State()), testId)| > 0
            && (forall k :: k in old(db.tests) && k != testId ==> old(db.tests)[k].linkToken != Some(token))
            ==> r.Ok?
  {
    var e := OwnerError(db.State(), testId, userId);
    if e.Some? {
      return Err(e.value);
    }
    if |QuestionsOf(db.State(), testId)| == 0 {
      return Err(NoQuestionsMessage);
    }
    var owner := TestByToken(db.State(), token);
    if owner.Some? && owner.value != testId {
      return Err("link_token already in use");
    }
    var before := db.tests[testId];
    var t := Touched(before, before.(isPublished := true, linkToken := Some(token)), now);
    db.PutTest(testId, t);
    r := Ok(TestToDict(c, t, [], AttemptsOf(db.State(), testId), false));
  }

  /** `get_test_by_link`: an unknown token and an unpublished test are told apart. */
  function GetTestByLink(s: DbState, c: Codec, token: string): (r: Result<TestDict, string>)
    requires KeysValid(s)
    ensures TestByToken(s, token).None? ==> r == Err("Test not found")
    ensures TestByToken(s, token).Some? && !s.tests[TestByToken(s, token).value].isPublished ==>
              r == Err("Test is not published")
    ensures r.Ok? ==> r.value.isPublished && r.value.linkToken == Some(token) && r.value.questions.Some?
    // the holder's test with every one of its questions, in `order_index` order, none showing its answer
    ensures r.Ok? ==>
              var id := TestByToken(s, token).value;
              var sorted := SortByIndex(QuestionsOf(s, id));
              && r.value.id == id
              && |r.value.questions.value| == |QuestionsOf(s, id)| == |sorted|
              && multiset(sorted) == multiset(QuestionsOf(s, id))
              && (forall i :: 0 <= i < |sorted| ==> r.value.questions.value[i] == QuestionToDict(c, sorted[i], false))
              && (forall i :: 0 <= i < |sorted| ==> r.value.questions.value[i].correctAnswer.None?)
  {
    match TestByToken(s, token)
    case None => Err("Test not found")
    case Some(id) =>
      if !s.tests[id].isPublished then Err("Test is not published")
      else Ok(TestToDict(c, s.tests[id], QuestionsOf(s, id), AttemptsOf(s, id), true))
  }

  /** With link tokens unique, the test a token leads to is the one holding it. */
  lemma LinkFindsHolder(s: DbState, c: Codec, id: nat, token: string)
    requires Consistent(s) && id in s.tests && s.tests[id].linkToken == Some(token)
    ensures TestByToken(s, token) == Some(id)
    ensures GetTestByLink(s, c, token).Ok? <==> s.tests[id].isPublished
  {
  }

  /** The canonical stored form of a correct answer, as `create_question` computes it
      (`None` stands for SQL NULL); `Err` where it raises. As written, a `single` answer is
      canonicalised only when it is a number or a non-empty list. */
  function CanonicalCorrectAnswer(qtype: string, correct: Json): (r: Result<Option<Json>, string>)
    ensures correct == JNull ==> r == Ok(None)
    ensures qtype == "single" && IsNumber(correct) ==> r == Ok(Some(JList([JInt(PyInt(correct).value)])))
    ensures qtype == "single" && correct.JStr? ==> r == Ok(None)
    ensures qtype == "multiple" && correct != JNull ==> (r.Ok? <==> correct.JList?)
    ensures qtype != "single" && qtype != "multiple" ==> r == Ok(if correct == JNull then None else Some(correct))
  {
    if correct == JNull then Ok(None)
    else if qtype == "single" then
      if IsNumber(correct) then Ok(Some(JList([JInt(PyInt(correct).value)])))
      else if correct.JList? && |correct.items| > 0 then
        (match PyInt(correct.items[0])
         case Converted(n) => Ok(Some(JList([JInt(n)])))
         case _ => Err("correct_answer is not an option index"))
      else Ok(None)
    else if qtype == "multiple" && !correct.JList? then Err("For multiple type, correct_answer must be a list")
    else Ok(Some(correct))
  }

  /** The corrected canonical form: a `single` answer given as a string of digits (the form the
      client sends and `validate_question_options` accepts) is stored as `[int(s)]` too. */
  function CanonicalCorrectAnswerFixed(qtype: string, correct: Json): (r: Result<Option<Json>, string>)
    ensures qtype == "single" && correct.JStr? && PyText.ParseInt(correct.s).Some? ==>
              r == Ok(Some(JList([JInt(PyText.ParseInt(correct.s).value)])))
    ensures !(qtype == "single" && correct.JStr?) ==> r == CanonicalCorrectAnswer(qtype, correct)
  {
    if qtype == "single" && correct.JStr? then
      match PyInt(correct) case Converted(n) => Ok(Some(JList([JInt(n)]))) case _ => Ok(None)
    else CanonicalCorrectAnswer(qtype, correct)
  }

  /** The question a canonical correct answer is stored in. */
  function WithCorrect(c: Codec, q: Question, canonical: Option<Json>): Question {
    q.(correctAnswer := match canonical case Some(v) => Some(c.dumps(v)) case None => None)
  }

  /** As written: a `single` question whose correct answer arrives as the string "1" is stored
      without a correct answer, so every answer to it is ungraded. */
  lemma StringIndexNeverGraded(c: Codec, q: Question, answer: Json)
    requires q.qtype == "single"
    ensures CanonicalCorrectAnswer("single", JStr("1")) == Ok(None)
    ensures CheckAnswer(c, WithCorrect(c, q, None), answer) == Graded(Ungraded)
  {
  }

  /** Corrected: a `single` question created with index `k` (as a number or as its decimal
      string) grades the answer `i` as right exactly when `i == k`. */
  lemma CreatedSingleGradesByIndex(c: Codec, q: Question, k: int, i: int)
    requires Lawful(c) && q.qtype == "single"
    ensures var stored := CanonicalCorrectAnswerFixed("single", JStr(PyText.DecimalString(k)));
            && stored == CanonicalCorrectAnswerFixed("single", JInt(k))
            && stored.Ok? && stored.value.Some?
            && CheckAnswer(c, WithCorrect(c, q, stored.value), JInt(i)) == Graded(if i == k then Correct else Incorrect)
  {
    PyText.ParseDecimal(k);
    GradingPropertiesBridge(c, q, k, i);
  }

  lemma GradingPropertiesBridge(c: Codec, q: Question, k: int, i: int)
    requires Lawful(c) && q.qtype == "single"
    ensures CheckAnswer(c, WithCorrect(c, q, Some(JList([JInt(k)]))), JInt(i)) == Graded(if i == k then Correct else Incorrect)
  {
    var q' := WithCorrect(c, q, Some(JList([JInt(k)])));
    assert c.loads(c.dumps(JList([JInt(k)]))) == Some(JList([JInt(k)]));
    assert CheckAnswer(c, q', JInt(i)) == Graded(GradeSingle(c, JList([JInt(k)]), JInt(i)));
  }

  /** As written, the validator run before `create_question` accepts the string "1" as the
      correct option of a two-option question, and `create_question` then stores no correct answer. */
  lemma ValidatedIndexDropped()
    ensures Validation.ValidateQuestionOptions(JStr("single"), JList([JStr("a"), JStr("b")]), JStr("1")) == Validation.Accepted
    ensures CanonicalCorrectAnswer("single", JStr("1")) == Ok(None)
  {
    assert PyText.ParseInt("1") == Some(1) by {
      PyText.ParseDecimal(1);
    }
  }

  /** Corrected: every correct answer the validator accepts for a single-choice question is stored
      as a one-element list holding an index of an option. */
  lemma ValidatedIndexStored(options: Json, correct: Json)
    requires Validation.ValidateQuestionOptions(JStr("single"), options, correct) == Validation.Accepted
    requires Truthy(correct)
    ensures options.JList?
    ensures var stored := CanonicalCorrectAnswerFixed("single", correct);
            exists n :: 0 <= n < |options.items| && stored == Ok(Some(JList([JInt(n)])))
  {
    var n := PyInt(correct).value;
    assert CanonicalCorrectAnswerFixed("single", correct) == Ok(Some(JList([JInt(n)])));
  }

  /** The keys of `data` that `create_question` reads. Absent `question_text` reads as "",
      absent `order_index` as 0, and an absent or null `correct_answer`/`options` as `JNull`. */
  datatype QuestionInput = QuestionInput(
    text: string, qtype: Option<string>, options: Json, correct: Json, orderIndex: int)

  /** `create_question`'s checks and canonicalisation, before anything is stored. */
  function NewQuestionFields(input: QuestionInput): (r: Result<(string, string, Option<Json>), string>)
    ensures r.Ok? <==> PyText.Strip(input.text) != [] && input.qtype.Some? && input.qtype.value != []
                       && CanonicalCorrectAnswer(input.qtype.value, input.correct).Ok?
    ensures r.Ok? ==> && r.value.0 == PyText.Strip(input.text) && r.value.1 == input.qtype.value
                      && r.value.2 == CanonicalCorrectAnswer(input.qtype.value, input.correct).value
    ensures PyText.Strip(input.text) == [] ==> r == Err("question_text is required")
    ensures PyText.Strip(input.text) != [] && (input.qtype.None? || input.qtype.value == []) ==> r == Err("question_type is required")
  {
    var text := PyText.Strip(input.text);
    if text == [] then Err("question_text is required")
    else if input.qtype.None? || input.qtype.value == [] then Err("question_type is required")
    else match CanonicalCorrectAnswer(input.qtype.value, input.correct)
      case Err(m) => Err(m)
      case Ok(canonical) => Ok((text, input.qtype.value, canonical))
  }

  /** The same checks with the corrected canonical form. */
  function NewQuestionFieldsFixed(input: QuestionInput): (r: Result<(string, string, Option<Json>), string>)
    ensures r.Ok? <==> PyText.Strip(input.text) != [] && input.qtype.Some? && input.qtype.value != []
                       && CanonicalCorrectAnswerFixed(input.qtype.value, input.correct).Ok?
    ensures r.Ok? ==> && r.value.0 == PyText.Strip(input.text) && r.value.1 == input.qtype.value
                      && r.value.2 == CanonicalCorrectAnswerFixed(input.qtype.value, input.correct).value
    ensures !(input.qtype == Some("single") && input.correct.JStr?) ==> r == NewQuestionFields(input)
  {
    var text := PyText.Strip(input.text);
    if text == [] then Err("question_text is required")
    else if input.qtype.None? || input.qtype.value == [] then Err("question_type is required")
    else match CanonicalCorrectAnswerFixed(input.qtype.value, input.correct)
      case Err(m) => Err(m)
      case Ok(canonical) => Ok((text, input.qtype.value, canonical))
  }

  /** As written, `create_question` stores no correct answer for a single-choice question whose
      index arrives as a string; with the correction it stores that index as a one-element list. */
  lemma StringIndexFields(text: string, options: Json, k: int, orderIndex: int)
    requires PyText.Strip(text) != []
    ensures var input := QuestionInput(text, Some("single"), options, JStr(PyText.DecimalString(k)), orderIndex);
            && NewQuestionFields(input).Ok? && NewQuestionFields(input).value.2 == None
            && NewQuestionFieldsFixed(input).Ok? && NewQuestionFieldsFixed(input).value.2 == Some(JList([JInt(k)]))
  {
    var input := QuestionInput(text, Some("single"), options, JStr(PyText.DecimalString(k)), orderIndex);
    PyText.ParseDecimal(k);
    StringIndexFieldsAt(input, k);
  }

  lemma StringIndexFieldsAt(input: QuestionInput, k: int)
    requires PyText.Strip(input.text) != [] && input.qtype == Some("single")
    requires input.correct.JStr? && PyText.ParseInt(input.correct.s) == Some(k)
    ensures NewQuestionFields(input).Ok? && NewQuestionFields(input).value.2 == None
    ensures NewQuestionFieldsFixed(input).Ok? && NewQuestionFieldsFixed(input).value.2 == Some(JList([JInt(k)]))
  {
  }

  /** `create_question`: owner only; the question text is stored stripped, `options` only when
      truthy, the correct answer in canonical form. */
  method CreateQuestion(db: Store, c: Codec, testId: nat, userId: nat, input: QuestionInput)
    returns (r: Result<QuestionDict, string>)
    requires db.Valid()
    modifies db
    ensures db.Valid()
    ensures r.Err? ==> db.State() == old(db.State())
    ensures OwnerError(old(db.State()), testId, userId).Some? ==>
              r == Err(OwnerError(old(db.State()), testId, userId).value)
    ensures OwnerError(old(db.State()), testId, userId).None? && NewQuestionFields(input).Err? ==>
              r == Err(NewQuestionFields(input).error)
    ensures r.Ok? ==>
              && OwnerError(old(db.State()), testId, userId).None? && NewQuestionFields(input).Ok?
              && var (text, qtype, canonical) := NewQuestionFields(input).value;
                 var id := old(db.nextQuestionId);
                 var q := WithCorrect(c, Question(id, testId, text, qtype,
                                                  if Truthy(input.options) then Some(c.dumps(input.options)) else None,
                                                  None, input.orderIndex), canonical);
                 && db.State() == old(db.State()).(questions := old(db.questions)[id := q], nextQuestionId := id + 1)
                 && r.value == QuestionToDict(c, q, true)
    ensures OwnerError(old(db.State()), testId, userId).None? && NewQuestionFields(input).Ok? ==> r.Ok?
  {
    var e := OwnerError(db.State(), testId, userId);
    if e.Some? {
      return Err(e.value);
    }
    var fields := NewQuestionFields(input);
    if fields.Err? {
      return Err(fields.error);
    }
    var (text, qtype, canonical) := fields.value;
    var options := if Truthy(input.options) then Some(c.dumps(input.options)) else None;
    var stored := match canonical case Some(v) => Some(c.dumps(v)) case None => None;
    var id := db.AddQuestion(testId, text, qtype, options, stored, input.orderIndex);
    r := Ok(QuestionToDict(c, db.questions[id], true));
  }

  /** The keys of `data` that `update_question` reads, each absent or given. */
  datatype QuestionPatch = QuestionPatch(
    text: Option<string>, qtype: Option<string>, options: Option<Json>, correct: Option<Json>, orderIndex: Option<int>)

  /** Only the given keys change; `options` and `correct_answer` are stored as given, encoded,
      with no canonicalisation and no validation. */
  function PatchQuestion(c: Codec, q: Question, p: QuestionPatch): (r: Question)
    ensures r.id == q.id && r.testId == q.testId
    ensures p.text.None? ==> r.text == q.text
    ensures p.qtype.None? ==> r.qtype == q.qtype
    ensures p.options.None? ==> r.options == q.options
    ensures p.correct.None? ==> r.correctAnswer == q.correctAnswer
    ensures p.orderIndex.None? ==> r.orderIndex == q.orderIndex
    ensures p.text.Some? ==> r.text == p.text.value
    ensures p.qtype.Some? ==> r.qtype == p.qtype.value
    ensures p.options.Some? ==> r.options == Some(c.dumps(p.options.value))
    ensures p.correct.Some? ==> r.correctAnswer == Some(c.dumps(p.correct.value))
    ensures p.orderIndex.Some? ==> r.orderIndex == p.orderIndex.value
  {
    q.(text := if p.text.Some? then p.text.value else q.text,
       qtype := if p.qtype.Some? then p.qtype.value else q.qtype,
       options := if p.options.Some? then Some(c.dumps(p.options.value)) else q.options,
       correctAnswer := if p.correct.Some? then Some(c.dumps(p.correct.value)) else q.correctAnswer,
       orderIndex := if p.orderIndex.Some? then p.orderIndex.value else q.orderIndex)
  }

  /** The checks of `update_question` and `delete_question`: a missing test and a test of another
      user both read 'Access denied'; the question must belong to the test. */
  function QuestionError(s: DbState, testId: nat, questionId: nat, userId: nat): (e: Option<string>)
    ensures e.None? <==> testId in s.tests && s.tests[testId].userId == userId
                         && questionId in s.questions && s.questions[questionId].testId == testId
    ensures testId !in s.tests ==> e == Some("Access denied")
  {
    if testId !in s.tests || s.tests[testId].userId != userId then Some("Access denied")
    else if questionId !in s.questions || s.questions[questionId].testId != testId then Some("Question not found")
    else None
  }

  method UpdateQuestion(db: Store, c: Codec, testId: nat, questionId: nat, userId: nat, patch: QuestionPatch)
    returns (r: Result<QuestionDict, string>)
    requires db.Valid()
    modifies db
    ensures db.Valid()
    ensures QuestionError(old(db.State()), testId, questionId, userId).Some? ==>
              r == Err(QuestionError(old(db.State()), testId, questionId, userId).value) && db.State() == old(db.State())
    ensures QuestionError(old(db.State()), testId, questionId, userId).None? ==>
              var q := PatchQuestion(c, old(db.questions)[questionId], patch);
              && db.State() == old(db.State()).(questions := old(db.questions)[questionId := q])
              && r == Ok(QuestionToDict(c, q, true))
  {
    var e := QuestionError(db.State(), testId, questionId, userId);
    if e.Some? {
      return Err(e.value);
    }
    var q := PatchQuestion(c, db.questions[questionId], patch);
    db.PutQuestion(questionId, q);
    r := Ok(QuestionToDict(c, q, true));
  }

  /** `delete_question`: the question goes, with its answers. */
  method DeleteQuestion(db: Store, testId: nat, questionId: nat, userId: nat) returns (r: Result<bool, string>)
    requires db.Valid()
    modifies db
    ensures db.Valid()
    ensures QuestionError(old(db.State()), testId, questionId, userId).Some? ==>
              r == Err(QuestionError(old(db.State()), testId, questionId, userId).value) && db.State() == old(db.State())
    ensures QuestionError(old(db.State()), testId, questionId, userId).None? ==>
              r == Ok(true) && db.State() == WithoutQuestion(old(db.State()), questionId)
  {
    var e := QuestionError(db.State(), testId, questionId, userId);
    if e.Some? {
      return Err(e.value);
    }
    db.RemoveQuestion(questionId);
    r := Ok(true);
  }
}
