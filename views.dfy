/** The server-rendered pages of `backend/routes/views.py` that change or read quiz data:
    `create_test` and `edit_test` (authoring from a submitted form), `take_test` (its own grading
    loop and integer score) and `test_result` (the access check and the count of right answers). */
module Views {
  import opened Wrappers
  import opened JsonValues
  import opened Models
  import opened Database
  import opened ViewForms
  import PyText
  import Numeric
  import Tables
  import TestService
  import Grading

  /** How a request ends when it does not save what it was sent. */
  datatype ViewError =
    | NotFound              // `get_or_404`: HTTP 404
    | UnknownUser           // the session names no user: redirect to the login page
    | Refused(flash: string) // a flashed message, then a redirect or the form again
    | RolledBack            // an exception inside `try`: `db.session.rollback()`
    | ServerError           // an exception outside `try`: HTTP 500

  const LoginFirst: string := "Пожалуйста, войдите в систему"
  const TitleRequired: string := "Введите название теста"
  const EditForbidden: string := "У вас нет прав для редактирования этого теста"
  const TestUnavailable: string := "Тест не найден или не опубликован"
  const LoginToSave: string := "Войдите в систему для сохранения результатов"
  const LoginToView: string := "Войдите в систему для просмотра результатов"
  const ResultForbidden: string := "У вас нет прав для просмотра этого результата"

  // ---------------------------------------------------------------- question rows from drafts

  /** The `Question` row added for draft `d` under id `id`. */
  function DraftRow(c: Codec, id: nat, testId: nat, d: Draft): Question {
    Question(id, testId, d.text, d.qtype, OptionsColumn(c, d.options), CorrectColumn(c, d.correct), d.orderIndex)
  }

  /** The rows of `drafts`, numbered from `firstId`. */
  function DraftRows(c: Codec, firstId: nat, testId: nat, drafts: seq<Draft>): seq<Question> {
    seq(|drafts|, i requires 0 <= i < |drafts| => DraftRow(c, firstId + i, testId, drafts[i]))
  }

  /** The store after `db.session.add(question)` for draft `d`: the row takes the next question id. */
  function AddedDraft(s: DbState, c: Codec, testId: nat, d: Draft): (r: DbState)
    ensures r == s.(questions := r.questions, nextQuestionId := s.nextQuestionId + 1)
  {
    var id := s.nextQuestionId;
    s.(questions := s.questions[id := DraftRow(c, id, testId, d)], nextQuestionId := id + 1)
  }

  /** The store after `db.session.add(question)` for every draft in turn: each draft takes the
      next question id, and no other table changes. */
  function WithDrafts(s: DbState, c: Codec, testId: nat, drafts: seq<Draft>): (r: DbState)
    ensures r == s.(questions := r.questions, nextQuestionId := s.nextQuestionId + |drafts|)
  {
    if drafts == [] then s
    else AddedDraft(WithDrafts(s, c, testId, drafts[..|drafts| - 1]), c, testId, drafts[|drafts| - 1])
  }

  lemma DraftStep(s: DbState, c: Codec, testId: nat, drafts: seq<Draft>, i: nat)
    requires i < |drafts|
    ensures WithDrafts(s, c, testId, drafts[..i + 1]) == AddedDraft(WithDrafts(s, c, testId, drafts[..i]), c, testId, drafts[i])
  {
    assert drafts[..i + 1][..i] == drafts[..i];
    assert drafts[..i + 1][i] == drafts[i];
  }

  /** Adding the drafts keeps every question below the first new id and puts draft `i` under the
      `i`-th new id; no other id is used. */
  lemma WithDraftsRows(s: DbState, c: Codec, testId: nat, drafts: seq<Draft>)
    ensures forall k :: k < s.nextQuestionId ==>
              (k in WithDrafts(s, c, testId, drafts).questions <==> k in s.questions)
              && (k in s.questions ==> WithDrafts(s, c, testId, drafts).questions[k] == s.questions[k])
    ensures forall k :: s.nextQuestionId <= k < s.nextQuestionId + |drafts| ==>
              k in WithDrafts(s, c, testId, drafts).questions
              && WithDrafts(s, c, testId, drafts).questions[k] == DraftRow(c, k, testId, drafts[k - s.nextQuestionId])
    ensures forall k :: k in WithDrafts(s, c, testId, drafts).questions ==>
              k in s.questions || s.nextQuestionId <= k < s.nextQuestionId + |drafts|
  {
    DraftsKeepOld(s, c, testId, drafts);
    DraftsAtIds(s, c, testId, drafts);
    DraftsUseNewIds(s, c, testId, drafts);
  }

  lemma {:induction false} DraftsKeepOld(s: DbState, c: Codec, testId: nat, drafts: seq<Draft>)
    ensures forall k :: k < s.nextQuestionId ==>
              (k in WithDrafts(s, c, testId, drafts).questions <==> k in s.questions)
              && (k in s.questions ==> WithDrafts(s, c, testId, drafts).questions[k] == s.questions[k])
  {
    if drafts != [] {
      DraftsKeepOld(s, c, testId, drafts[..|drafts| - 1]);
    }
  }

  lemma {:induction false} DraftsAtIds(s: DbState, c: Codec, testId: nat, drafts: seq<Draft>)
    ensures forall k :: s.nextQuestionId <= k < s.nextQuestionId + |drafts| ==>
              k in WithDrafts(s, c, testId, drafts).questions
              && WithDrafts(s, c, testId, drafts).questions[k] == DraftRow(c, k, testId, drafts[k - s.nextQuestionId])
  {
    if drafts != [] {
      var front := drafts[..|drafts| - 1];
      DraftsAtIds(s, c, testId, front);
      var fr := WithDrafts(s, c, testId, front);
      var id := s.nextQuestionId + |front|;
      var r := WithDrafts(s, c, testId, drafts);
      assert r.questions == fr.questions[id := DraftRow(c, id, testId, drafts[|front|])];
      forall k | s.nextQuestionId <= k < id
        ensures k in r.questions && r.questions[k] == DraftRow(c, k, testId, drafts[k - s.nextQuestionId])
      {
        assert front[k - s.nextQuestionId] == drafts[k - s.nextQuestionId];
      }
    }
  }

  lemma {:induction false} DraftsUseNewIds(s: DbState, c: Codec, testId: nat, drafts: seq<Draft>)
    ensures forall k :: k in WithDrafts(s, c, testId, drafts).questions ==>
              k in s.questions || s.nextQuestionId <= k < s.nextQuestionId + |drafts|
  {
    if drafts != [] {
      DraftsUseNewIds(s, c, testId, drafts[..|drafts| - 1]);
    }
  }

  /** The loop that adds one question per draft. */
  method AddDrafts(db: Store, c: Codec, testId: nat, drafts: seq<Draft>)
    requires db.Valid() && testId in db.tests
    modifies db
    ensures db.Valid()
    ensures db.State() == WithDrafts(old(db.State()), c, testId, drafts)
  {
    ghost var s0 := db.State();
    var i := 0;
    while i < |drafts|
      invariant 0 <= i <= |drafts|
      invariant db.Valid() && testId in db.tests
      invariant db.State() == WithDrafts(s0, c, testId, drafts[..i])
    {
      var d := drafts[i];
      ghost var before := db.State();
      DraftStep(s0, c, testId, drafts, i);
      var _ := db.AddQuestion(testId, d.text, d.qtype, OptionsColumn(c, d.options), CorrectColumn(c, d.correct), d.orderIndex);
      assert db.State() == AddedDraft(before, c, testId, d);
      i := i + 1;
    }
    assert drafts[..i] == drafts;
  }

  lemma {:induction false} DraftsKeysValid(s: DbState, c: Codec, testId: nat, drafts: seq<Draft>)
    requires KeysValid(s)
    ensures KeysValid(WithDrafts(s, c, testId, drafts))
  {
    if drafts != [] {
      var front := drafts[..|drafts| - 1];
      DraftsKeysValid(s, c, testId, front);
      var f := WithDrafts(s, c, testId, front);
      QuestionKeys(f, WithDrafts(s, c, testId, drafts), DraftRow(c, f.nextQuestionId, testId, drafts[|drafts| - 1]));
    }
  }

  /** When test `testId` has no question, after the drafts are added its questions (in id order)
      are exactly their rows. */
  lemma {:induction false} DraftsBecomeQuestions(s: DbState, c: Codec, testId: nat, drafts: seq<Draft>)
    requires KeysValid(s)
    requires forall k :: k in s.questions ==> s.questions[k].testId != testId
    ensures KeysValid(WithDrafts(s, c, testId, drafts))
    ensures QuestionsOf(WithDrafts(s, c, testId, drafts), testId) == DraftRows(c, s.nextQuestionId, testId, drafts)
  {
    var r := WithDrafts(s, c, testId, drafts);
    var a := s.nextQuestionId;
    var rows := DraftRows(c, a, testId, drafts);
    DraftsKeysValid(s, c, testId, drafts);
    DraftsAtIds(s, c, testId, drafts);
    DraftsAtNewIds(r.questions, c, a, testId, drafts, rows);
    DraftsOnlyOfTest(s, c, testId, drafts);
    var p := (q: Question) => q.testId == testId;
    forall k | k < r.nextQuestionId ensures (k in r.questions && p(r.questions[k]) <==> a <= k < a + |rows|) {
    }
    Tables.RowsRange(r.questions, r.nextQuestionId, p, a, rows);
  }

  /** The rows the drafts take, id by id, are `DraftRows` in order. */
  lemma DraftsAtNewIds(questions: map<nat, Question>, c: Codec, a: nat, testId: nat, drafts: seq<Draft>, rows: seq<Question>)
    requires rows == DraftRows(c, a, testId, drafts)
    requires forall k :: a <= k < a + |drafts| ==> k in questions && questions[k] == DraftRow(c, k, testId, drafts[k - a])
    ensures forall k :: a <= k < a + |rows| ==> k in questions && questions[k] == rows[k - a]
  {
    forall k | a <= k < a + |rows| ensures k in questions && questions[k] == rows[k - a] {
      assert rows[k - a] == DraftRow(c, k, testId, drafts[k - a]);
    }
  }

  lemma DraftsOnlyOfTest(s: DbState, c: Codec, testId: nat, drafts: seq<Draft>)
    requires forall k :: k in s.questions ==> s.questions[k].testId != testId
    ensures forall k :: k < s.nextQuestionId + |drafts| ==>
              (k in WithDrafts(s, c, testId, drafts).questions && WithDrafts(s, c, testId, drafts).questions[k].testId == testId
               <==> s.nextQuestionId <= k < s.nextQuestionId + |drafts|)
  {
    var r := WithDrafts(s, c, testId, drafts);
    var a := s.nextQuestionId;
    DraftsKeepOld(s, c, testId, drafts);
    DraftsAtIds(s, c, testId, drafts);
    DraftsUseNewIds(s, c, testId, drafts);
    forall k | k < a + |drafts| ensures (k in r.questions && r.questions[k].testId == testId <==> a <= k < a + |drafts|) {
      if a <= k {
        assert r.questions[k] == DraftRow(c, k, testId, drafts[k - a]);
      } else if k in r.questions {
        assert r.questions[k] == s.questions[k];
      }
    }
  }

  /** The store after `db.session.delete(question)` for each id in turn; only the questions and
      answers tables change. */
  function WithoutQuestions(s: DbState, ids: seq<nat>): (r: DbState)
    ensures r == s.(questions := r.questions, answers := r.answers)
  {
    if ids == [] then s
    else WithoutQuestion(WithoutQuestions(s, ids[..|ids| - 1]), ids[|ids| - 1])
  }

  /** The questions left are those not listed, and the answers left are those to questions not
      listed; the rows kept are unchanged. */
  lemma {:induction false} WithoutQuestionsRows(s: DbState, ids: seq<nat>)
    ensures forall k :: k in WithoutQuestions(s, ids).questions <==> k in s.questions && k !in ids
    ensures forall k :: k in WithoutQuestions(s, ids).questions ==> WithoutQuestions(s, ids).questions[k] == s.questions[k]
    ensures forall k :: k in WithoutQuestions(s, ids).answers <==> k in s.answers && s.answers[k].questionId !in ids
    ensures forall k :: k in WithoutQuestions(s, ids).answers ==> WithoutQuestions(s, ids).answers[k] == s.answers[k]
  {
    if ids != [] {
      var front := ids[..|ids| - 1];
      WithoutQuestionsRows(s, front);
      assert forall k :: k in ids <==> k in front || k == ids[|ids| - 1];
    }
  }

  lemma {:induction false} WithoutQuestionsKeys(s: DbState, ids: seq<nat>)
    requires KeysValid(s)
    ensures KeysValid(WithoutQuestions(s, ids))
  {
    if ids != [] {
      WithoutQuestionsKeys(s, ids[..|ids| - 1]);
      WithoutQuestionKeys(WithoutQuestions(s, ids[..|ids| - 1]), ids[|ids| - 1]);
    }
  }

  /** The ids of the questions of test `testId`, ascending (`test.questions`). */
  function QuestionIdsOf(s: DbState, testId: nat): seq<nat> {
    Tables.Ids(s.questions, s.nextQuestionId, (q: Question) => q.testId == testId)
  }

  /** One more deletion: the next listed question is still there, and deleting it extends the fold. */
  lemma RemoveStep(s0: DbState, ids: seq<nat>, i: nat)
    requires Tables.Ascending(ids) && i < |ids| && ids[i] in s0.questions
    ensures ids[i] in WithoutQuestions(s0, ids[..i]).questions
    ensures WithoutQuestions(s0, ids[..i + 1]) == WithoutQuestion(WithoutQuestions(s0, ids[..i]), ids[i])
  {
    WithoutQuestionsRows(s0, ids[..i]);
    assert ids[i] !in ids[..i];
    assert ids[..i + 1][..i] == ids[..i];
  }

  /** The loop `for question in test.questions: db.session.delete(question)`. */
  method RemoveQuestions(db: Store, ids: seq<nat>)
    requires db.Valid()
    requires Tables.Ascending(ids) && forall i :: 0 <= i < |ids| ==> ids[i] in db.questions
    modifies db
    ensures db.Valid()
    ensures db.State() == WithoutQuestions(old(db.State()), ids)
  {
    ghost var s0 := db.State();
    var i := 0;
    while i < |ids|
      invariant 0 <= i <= |ids|
      invariant db.Valid()
      invariant db.State() == WithoutQuestions(s0, ids[..i])
    {
      RemoveStep(s0, ids, i);
      db.RemoveQuestion(ids[i]);
      i := i + 1;
    }
    assert ids[..i] == ids;
  }

  // ---------------------------------------------------------------- create_test

  /** `action == 'publish'`; any other action, or none, saves a draft. */
  predicate Published(form: Form) {
    GetOr(form, "action", "draft") == "publish"
  }

  /** No test other than `testId` holds `token`, so storing it keeps the column unique. */
  predicate TokenFree(s: DbState, testId: nat, token: string) {
    forall k :: k in s.tests && k != testId ==> s.tests[k].linkToken != Some(token)
  }

  /** Why `create_test` saves nothing, in the order it finds out: no session, a session naming no
      user, a blank title, a question index that `int()` rejects, or a new token that clashes with
      a stored one (the unique column makes the flush fail). */
  function CreateError(s: DbState, sessionUser: Option<nat>, form: Form, token: string): (e: Option<ViewError>)
    ensures e.None? <==>
              && sessionUser.Some? && sessionUser.value in s.users
              && Field(form, "title") != []
              && ScanIndices(form).Some?
              && (Published(form) ==> TokenFree(s, s.nextTestId, token))
    ensures sessionUser.Some? && sessionUser.value in s.users && Field(form, "title") == [] ==>
              e == Some(Refused(TitleRequired))
  {
    if sessionUser.None? then Some(Refused(LoginFirst))
    else if sessionUser.value !in s.users then Some(UnknownUser)
    else if Field(form, "title") == [] then Some(Refused(TitleRequired))
    else if ScanIndices(form).None? then Some(RolledBack)
    else if Published(form) && !TokenFree(s, s.nextTestId, token) then Some(RolledBack)
    else None
  }

  /** The test row `create_test` adds under id `id`. */
  function NewTestRow(id: nat, userId: nat, form: Form, token: string, now: nat): Test {
    var pub := Published(form);
    Test(id, Field(form, "title"), Some(Field(form, "description")), userId, pub, if pub then Some(token) else None, now, now)
  }

  /** The store after `create_test` commits: the new test (stripped title and description,
      published with token `token` exactly when the action was `publish`) and its questions. */
  function Created(s: DbState, c: Codec, userId: nat, form: Form, token: string, now: nat, drafts: seq<Draft>): DbState {
    var id := s.nextTestId;
    WithDrafts(s.(tests := s.tests[id := NewTestRow(id, userId, form, token, now)], nextTestId := id + 1), c, id, drafts)
  }

  lemma CreatedFrom(s0: DbState, s1: DbState, c: Codec, userId: nat, form: Form, token: string, now: nat, drafts: seq<Draft>)
    requires s1 == s0.(tests := s0.tests[s0.nextTestId := NewTestRow(s0.nextTestId, userId, form, token, now)],
                       nextTestId := s0.nextTestId + 1)
    ensures WithDrafts(s1, c, s0.nextTestId, drafts) == Created(s0, c, userId, form, token, now, drafts)
  {
  }

  /** The form's question drafts, as the two loops over the form build them. */
  method ParseDrafts(form: Form) returns (drafts: seq<Draft>)
    requires ScanIndices(form).Some?
    ensures FormDrafts(form, drafts)
  {
    var indices := QuestionIndices(form);
    drafts := BuildDrafts(form, SortedIndices(indices.value));
  }

  /** The writes of `create_test` once every check has passed. */
  method SaveNewTest(db: Store, c: Codec, userId: nat, form: Form, token: string, now: nat) returns (id: nat)
    requires db.Valid() && ScanIndices(form).Some?
    requires Published(form) ==> TokenFree(db.State(), db.nextTestId, token)
    modifies db
    ensures db.Valid() && id == old(db.nextTestId)
    ensures exists drafts :: FormDrafts(form, drafts) && db.State() == Created(old(db.State()), c, userId, form, token, now, drafts)
  {
    ghost var s0 := db.State();
    var row := NewTestRow(db.nextTestId, userId, form, token, now);
    id := db.AddTest(row.title, row.description, row.userId, row.isPublished, row.linkToken, now);
    ghost var s1 := db.State();
    var drafts := ParseDrafts(form);
    AddDrafts(db, c, id, drafts);
    CreatedFrom(s0, s1, c, userId, form, token, now, drafts);
  }

  /** `create_test` (POST). `token` stands for `secrets.token_urlsafe(32)` and `now` for the clock.
      A failure after the first write rolls the session back, so every failure leaves the store as
      it was; the checks are made before the writes. */
  method CreateTestFromForm(db: Store, c: Codec, sessionUser: Option<nat>, form: Form, token: string, now: nat)
    returns (r: Result<nat, ViewError>)
    requires db.Valid()
    modifies db
    ensures db.Valid()
    ensures CreateError(old(db.State()), sessionUser, form, token).Some? ==>
              r == Err(CreateError(old(db.State()), sessionUser, form, token).value) && db.State() == old(db.State())
    ensures CreateError(old(db.State()), sessionUser, form, token).None? ==>
              && r == Ok(old(db.nextTestId))
              && exists drafts :: FormDrafts(form, drafts)
                   && db.State() == Created(old(db.State()), c, sessionUser.value, form, token, now, drafts)
  {
    var e := CreateError(db.State(), sessionUser, form, token);
    if e.Some? {
      return Err(e.value);
    }
    var id := SaveNewTest(db, c, sessionUser.value, form, token, now);
    r := Ok(id);
  }

  /** What `create_test` stores: a test under the next id, owned by the session user, with its
      non-blank title, published and holding the new token exactly when the action was
      `publish`; its questions, in id order, are the rows of the form's drafts; every other test,
      and every attempt, answer and user, is as before. */
  lemma CreatedTest(s: DbState, c: Codec, userId: nat, form: Form, token: string, now: nat, drafts: seq<Draft>, r: DbState)
    requires KeysValid(s)
    requires r == Created(s, c, userId, form, token, now, drafts)
    ensures s.nextTestId !in s.tests && s.nextTestId in r.tests && r.tests[s.nextTestId].userId == userId
    ensures r.tests[s.nextTestId].isPublished == Published(form)
    ensures r.tests[s.nextTestId].linkToken.Some? <==> Published(form)
    ensures forall k :: k in s.tests ==> k in r.tests && r.tests[k] == s.tests[k]
    ensures r.attempts == s.attempts && r.answers == s.answers && r.users == s.users
  {
    var id := s.nextTestId;
    var s1 := s.(tests := s.tests[id := NewTestRow(id, userId, form, token, now)], nextTestId := id + 1);
    assert r == WithDrafts(s1, c, id, drafts);
  }

  lemma NoQuestionsOfNextTest(s: DbState)
    requires KeysValid(s) && LinksValid(s)
    ensures forall k :: k in s.questions ==> s.questions[k].testId != s.nextTestId
  {
  }

  /** The questions of the new test, in id order, are the rows of the form's drafts. */
  lemma CreatedQuestions(s: DbState, c: Codec, userId: nat, form: Form, token: string, now: nat, drafts: seq<Draft>, r: DbState)
    requires KeysValid(s) && LinksValid(s)
    requires r == Created(s, c, userId, form, token, now, drafts)
    ensures KeysValid(r) && QuestionsOf(r, s.nextTestId) == DraftRows(c, s.nextQuestionId, s.nextTestId, drafts)
  {
    var id := s.nextTestId;
    var row := NewTestRow(id, userId, form, token, now);
    var s1 := s.(tests := s.tests[id := row], nextTestId := id + 1);
    assert r == WithDrafts(s1, c, id, drafts);
    TestKeys(s, s1, row);
    NoQuestionsOfNextTest(s);
    DraftsBecomeQuestions(s1, c, id, drafts);
  }

  // ---------------------------------------------------------------- edit_test

  predicate Deleting(form: Form) {
    GetOr(form, "action", "draft") == "delete"
  }

  /** Why `edit_test` saves nothing, in the order it finds out. With action `delete` no form field
      is looked at. */
  function EditError(s: DbState, sessionUser: Option<nat>, testId: nat, form: Form, token: string): (e: Option<ViewError>)
    ensures e.None? <==>
              && sessionUser.Some? && sessionUser.value in s.users
              && testId in s.tests && s.tests[testId].userId == sessionUser.value
              && (!Deleting(form) ==>
                    && Field(form, "title") != [] && ScanIndices(form).Some?
                    && (Published(form) && !Present(s.tests[testId].linkToken) ==> TokenFree(s, testId, token)))
    ensures (sessionUser.Some? && sessionUser.value in s.users && testId in s.tests
             && s.tests[testId].userId != sessionUser.value) ==> e == Some(Refused(EditForbidden))
  {
    if sessionUser.None? then Some(Refused(LoginFirst))
    else if sessionUser.value !in s.users then Some(UnknownUser)
    else if testId !in s.tests then Some(NotFound)
    else if s.tests[testId].userId != sessionUser.value then Some(Refused(EditForbidden))
    else if Deleting(form) then None
    else if Field(form, "title") == [] then Some(Refused(TitleRequired))
    else if ScanIndices(form).None? then Some(RolledBack)
    else if Published(form) && !Present(s.tests[testId].linkToken) && !TokenFree(s, testId, token) then Some(RolledBack)
    else None
  }

  /** The test row after an edit: new title, description and publication flag; a token is
      generated only when publishing a test that has none. */
  function EditedRow(before: Test, form: Form, token: string, now: nat): Test {
    var pub := Published(form);
    TestService.Touched(before,
      before.(title := Field(form, "title"), description := Some(Field(form, "description")), isPublished := pub,
              linkToken := if pub && !Present(before.linkToken) then Some(token) else before.linkToken),
      now)
  }

  /** The store after an edit commits: the row updated, every old question of the test deleted
      (with its answers), then the drafts added. */
  function Edited(s: DbState, c: Codec, testId: nat, form: Form, token: string, now: nat, drafts: seq<Draft>): DbState
    requires testId in s.tests
  {
    var s1 := s.(tests := s.tests[testId := EditedRow(s.tests[testId], form, token, now)]);
    WithDrafts(WithoutQuestions(s1, QuestionIdsOf(s, testId)), c, testId, drafts)
  }

  /** `edit_test` (POST). */
  method EditTestFromForm(db: Store, c: Codec, sessionUser: Option<nat>, testId: nat, form: Form, token: string, now: nat)
    returns (r: Result<nat, ViewError>)
    requires db.Valid()
    modifies db
    ensures db.Valid()
    ensures EditError(old(db.State()), sessionUser, testId, form, token).Some? ==>
              r == Err(EditError(old(db.State()), sessionUser, testId, form, token).value) && db.State() == old(db.State())
    ensures EditError(old(db.State()), sessionUser, testId, form, token).None? && Deleting(form) ==>
              r == Ok(testId) && db.State() == WithoutTest(old(db.State()), testId)
    ensures EditError(old(db.State()), sessionUser, testId, form, token).None? && !Deleting(form) ==>
              && r == Ok(testId)
              && exists drafts :: FormDrafts(form, drafts)
                   && db.State() == Edited(old(db.State()), c, testId, form, token, now, drafts)
  {
    var e := EditError(db.State(), sessionUser, testId, form, token);
    if e.Some? {
      return Err(e.value);
    }
    if Deleting(form) {
      db.RemoveTest(testId);
      return Ok(testId);
    }
    ghost var s0 := db.State();
    var row := EditedRow(db.tests[testId], form, token, now);
    db.PutTest(testId, row);
    var ids := QuestionIdsOf(db.State(), testId);
    assert ids == QuestionIdsOf(s0, testId);
    RemoveQuestions(db, ids);
    var indices := QuestionIndices(form);
    var drafts := BuildDrafts(form, SortedIndices(indices.value));
    AddDrafts(db, c, testId, drafts);
    assert FormDrafts(form, drafts);
    assert db.State() == Edited(s0, c, testId, form, token, now, drafts);
    r := Ok(testId);
  }

  /** What an edit stores: the test's questions, in id order, are exactly the rows of the new
      drafts; questions of other tests are untouched; no answer to a question of the test
      survives, while the attempts (and their scores) do; the publication flag follows the action,
      and a token the test already had is never replaced. */
  lemma EditedTest(s: DbState, c: Codec, testId: nat, form: Form, token: string, now: nat, drafts: seq<Draft>, r: DbState)
    requires KeysValid(s) && LinksValid(s) && testId in s.tests
    requires r == Edited(s, c, testId, form, token, now, drafts)
    ensures forall k :: k in s.questions && s.questions[k].testId != testId ==>
              k in r.questions && r.questions[k] == s.questions[k]
    ensures forall k :: k in r.answers ==>
              r.answers[k].questionId in s.questions && s.questions[r.answers[k].questionId].testId != testId
    ensures r.attempts == s.attempts
    ensures r.tests[testId].isPublished == Published(form)
    ensures Present(s.tests[testId].linkToken) ==> r.tests[testId].linkToken == s.tests[testId].linkToken
    ensures Published(form) ==> r.tests[testId].linkToken.Some?
  {
    var s1 := s.(tests := s.tests[testId := EditedRow(s.tests[testId], form, token, now)]);
    var ids := QuestionIdsOf(s, testId);
    var s2 := WithoutQuestions(s1, ids);
    WithoutQuestionsRows(s1, ids);
    DraftsKeepOld(s2, c, testId, drafts);
    forall k | k in s.questions && s.questions[k].testId != testId
      ensures k in r.questions && r.questions[k] == s.questions[k]
    {
      assert k !in ids;
    }
    forall k | k in r.answers
      ensures r.answers[k].questionId in s.questions && s.questions[r.answers[k].questionId].testId != testId
    {
      assert AnswerLinked(s, s.answers[k]);
    }
  }

  /** After an edit the test's questions, in id order, are exactly the rows of the new drafts. */
  lemma EditedQuestions(s: DbState, c: Codec, testId: nat, form: Form, token: string, now: nat, drafts: seq<Draft>, r: DbState)
    requires KeysValid(s) && testId in s.tests
    requires r == Edited(s, c, testId, form, token, now, drafts)
    ensures KeysValid(r) && QuestionsOf(r, testId) == DraftRows(c, s.nextQuestionId, testId, drafts)
  {
    var row := EditedRow(s.tests[testId], form, token, now);
    var s1 := s.(tests := s.tests[testId := row]);
    var ids := QuestionIdsOf(s, testId);
    var s2 := WithoutQuestions(s1, ids);
    TestKeys(s, s1, row);
    WithoutQuestionsKeys(s1, ids);
    WithoutQuestionsRows(s1, ids);
    forall k | k in s2.questions ensures s2.questions[k].testId != testId {
      assert k !in ids;
    }
    DraftsBecomeQuestions(s2, c, testId, drafts);
  }

  // ---------------------------------------------------------------- take_test

  /** The form key of question `q`'s answer, `question_<id>`. */
  function AnswerKey(q: Question): string {
    "question_" + PyText.DecimalString(q.id)
  }

  /** `[int(a) for a in values]`; None when `int` raises on some value. */
  function ParseAll(values: seq<string>): (r: Option<seq<int>>)
    ensures r.Some? ==> |r.value| == |values|
                        && forall i :: 0 <= i < |values| ==> PyText.ParseInt(values[i]) == Some(r.value[i])
    ensures r.None? ==> exists i :: 0 <= i < |values| && PyText.ParseInt(values[i]).None?
  {
    if forall i :: 0 <= i < |values| ==> PyText.ParseInt(values[i]).Some? then
      Some(seq(|values|, i requires 0 <= i < |values| => PyText.ParseInt(values[i]).value))
    else None
  }

  function JInts(ns: seq<int>): (r: seq<Json>)
    ensures |r| == |ns| && forall i :: 0 <= i < |ns| ==> r[i] == JInt(ns[i])
  {
    seq(|ns|, i requires 0 <= i < |ns| => JInt(ns[i]))
  }

  /** The `user_answer` text saved for question `q`: the checkbox values as a JSON list of ints
      (or the empty string when none is ticked), the radio value or the empty string, or the raw
      value of any other field. None when a checkbox value makes `int` raise. */
  function AnswerText(c: Codec, q: Question, form: Form): Option<Option<string>> {
    var key := AnswerKey(q);
    if q.qtype == "multiple" then
      var values := GetList(form, key);
      if values == [] then Some(Some(""))
      else match ParseAll(values)
        case None => None
        case Some(ns) => Some(Some(c.dumps(JList(JInts(ns)))))
    else if q.qtype == "single" then Some(Some(GetOr(form, key, "")))
    else Some(Get(form, key))
  }

  /** Whether every question's answer text can be formed. */
  predicate AnswersReadable(c: Codec, qs: seq<Question>, form: Form) {
    forall i :: 0 <= i < |qs| ==> AnswerText(c, qs[i], form).Some?
  }

  /** The texts of all answers, question by question. */
  function AnswerTexts(c: Codec, qs: seq<Question>, form: Form): (r: seq<Option<string>>)
    requires AnswersReadable(c, qs, form)
    ensures |r| == |qs| && forall i :: 0 <= i < |qs| ==> r[i] == AnswerText(c, qs[i], form).value
  {
    seq(|qs|, i requires 0 <= i < |qs| => AnswerText(c, qs[i], form).value)
  }

  /** The page's own check of one answer. The stored correct answer must be present and decode;
      `multiple` compares the submitted and stored lists sorted, `single` compares `int(answer)`
      with the first stored element (or the bare stored value), and any other type compares the
      stripped, lower-cased answer with the lower-cased `str` of the stored value, which is not
      stripped. An empty answer and every exception count as wrong. */
  predicate LegacyCorrect(c: Codec, q: Question, text: Option<string>) {
    && Present(q.correctAnswer)
    && match c.loads(q.correctAnswer.value)
       case None => false
       case Some(correct) =>
         if q.qtype == "multiple" then
           var submitted := if Present(text) then c.loads(text.value) else Some(JList([]));
           && submitted.Some? && submitted.value.JList? && correct.JList?
           && Grading.SortedEqual(submitted.value.items, correct.items) == Some(true)
         else if q.qtype == "single" then
           Present(text) && LegacySingleCorrect(correct, text.value)
         else
           Present(text) && PyText.Lower(PyText.Strip(text.value)) == PyText.Lower(c.str(correct))
  }

  /** The `single` branch of the page's check: `int(answer)` against the first stored element. */
  predicate LegacySingleCorrect(correct: Json, text: string) {
    match PyText.ParseInt(text)
    case None => false
    case Some(n) =>
      if correct.JList? then |correct.items| > 0 && EqualsInt(correct.items[0], n)
      else EqualsInt(correct, n)
  }

  /** `correct_count` after the first `n` turns of the loop. */
  function LegacyCount(c: Codec, qs: seq<Question>, texts: seq<Option<string>>, n: nat): (k: nat)
    requires |texts| == |qs| && n <= |qs|
    ensures k <= n
  {
    if n == 0 then 0
    else LegacyCount(c, qs, texts, n - 1) + (if LegacyCorrect(c, qs[n - 1], texts[n - 1]) then 1 else 0)
  }

  /** `int((correct_count / total_questions) * 100) if total_questions > 0 else 0`, on exact
      values: the percentage of right answers, truncated to an integer. */
  function LegacyScore(total: nat, correct: nat): (n: int)
    ensures total == 0 || correct == 0 ==> n == 0
    ensures correct <= total ==> 0 <= n <= 100
    ensures 0 < total == correct ==> n == 100
  {
    if total == 0 then 0
    else
      var x := correct as real / total as real * 100.0;
      assert correct <= total ==> x <= 100.0 by {
        if correct <= total {
          assert correct as real / total as real <= 1.0;
        }
      }
      assert 0 < total == correct ==> x == 100.0;
      Numeric.Trunc(x)
  }

  /** `db.session.add(answer)`: the answer to `q` takes the next answer id and is left ungraded
      (`is_correct` null). */
  function AddedAnswer(s: DbState, attemptId: nat, q: Question, text: Option<string>): (r: DbState)
    ensures r == s.(answers := r.answers, nextAnswerId := s.nextAnswerId + 1)
  {
    var id := s.nextAnswerId;
    s.(answers := s.answers[id := Answer(id, attemptId, q.id, text, None)], nextAnswerId := id + 1)
  }

  /** The store after the first `n` turns of the loop, each adding the answer to its question. */
  function WithAnswers(s: DbState, attemptId: nat, qs: seq<Question>, texts: seq<Option<string>>, n: nat): (r: DbState)
    requires |texts| == |qs| && n <= |qs|
    ensures r == s.(answers := r.answers, nextAnswerId := s.nextAnswerId + n)
  {
    if n == 0 then s
    else AddedAnswer(WithAnswers(s, attemptId, qs, texts, n - 1), attemptId, qs[n - 1], texts[n - 1])
  }

  /** After `n` turns every answer below the first new id is kept, the answer to `qs[i]` sits
      under the `i`-th new id, and no other id is used. */
  lemma WithAnswersRows(s: DbState, attemptId: nat, qs: seq<Question>, texts: seq<Option<string>>, n: nat)
    requires |texts| == |qs| && n <= |qs|
    ensures forall k :: k < s.nextAnswerId ==>
              (k in WithAnswers(s, attemptId, qs, texts, n).answers <==> k in s.answers)
              && (k in s.answers ==> WithAnswers(s, attemptId, qs, texts, n).answers[k] == s.answers[k])
    ensures forall k :: s.nextAnswerId <= k < s.nextAnswerId + n ==>
              k in WithAnswers(s, attemptId, qs, texts, n).answers
              && WithAnswers(s, attemptId, qs, texts, n).answers[k]
                 == Answer(k, attemptId, qs[k - s.nextAnswerId].id, texts[k - s.nextAnswerId], None)
    ensures forall k :: k in WithAnswers(s, attemptId, qs, texts, n).answers ==>
              k in s.answers || s.nextAnswerId <= k < s.nextAnswerId + n
  {
    AnswersKeepOld(s, attemptId, qs, texts, n);
    AnswersAtIds(s, attemptId, qs, texts, n);
    AnswersUseNewIds(s, attemptId, qs, texts, n);
  }

  lemma {:induction false} AnswersKeepOld(s: DbState, attemptId: nat, qs: seq<Question>, texts: seq<Option<string>>, n: nat)
    requires |texts| == |qs| && n <= |qs|
    ensures forall k :: k < s.nextAnswerId ==>
              (k in WithAnswers(s, attemptId, qs, texts, n).answers <==> k in s.answers)
              && (k in s.answers ==> WithAnswers(s, attemptId, qs, texts, n).answers[k] == s.answers[k])
  {
    if n > 0 {
      AnswersKeepOld(s, attemptId, qs, texts, n - 1);
    }
  }

  lemma {:induction false} AnswersAtIds(s: DbState, attemptId: nat, qs: seq<Question>, texts: seq<Option<string>>, n: nat)
    requires |texts| == |qs| && n <= |qs|
    ensures forall k :: s.nextAnswerId <= k < s.nextAnswerId + n ==>
              k in WithAnswers(s, attemptId, qs, texts, n).answers
              && WithAnswers(s, attemptId, qs, texts, n).answers[k]
                 == Answer(k, attemptId, qs[k - s.nextAnswerId].id, texts[k - s.nextAnswerId], None)
  {
    if n > 0 {
      AnswersAtIds(s, attemptId, qs, texts, n - 1);
    }
  }

  lemma {:induction false} AnswersUseNewIds(s: DbState, attemptId: nat, qs: seq<Question>, texts: seq<Option<string>>, n: nat)
    requires |texts| == |qs| && n <= |qs|
    ensures forall k :: k in WithAnswers(s, attemptId, qs, texts, n).answers ==>
              k in s.answers || s.nextAnswerId <= k < s.nextAnswerId + n
  {
    if n > 0 {
      AnswersUseNewIds(s, attemptId, qs, texts, n - 1);
    }
  }

  lemma {:induction false} AnswersKeysValid(s: DbState, attemptId: nat, qs: seq<Question>, texts: seq<Option<string>>, n: nat)
    requires KeysValid(s) && |texts| == |qs| && n <= |qs|
    ensures KeysValid(WithAnswers(s, attemptId, qs, texts, n))
  {
    if n > 0 {
      AnswersKeysValid(s, attemptId, qs, texts, n - 1);
      var f := WithAnswers(s, attemptId, qs, texts, n - 1);
      AnswerKeys(f, WithAnswers(s, attemptId, qs, texts, n), Answer(f.nextAnswerId, attemptId, qs[n - 1].id, texts[n - 1], None));
    }
  }

  /** The rows `test.questions` lists sit under their own ids, in increasing id order. */
  lemma QuestionsOfKeyed(s: DbState, testId: nat)
    requires KeysValid(s)
    ensures forall i :: 0 <= i < |QuestionsOf(s, testId)| ==>
              var q := QuestionsOf(s, testId)[i]; q.id in s.questions && s.questions[q.id] == q && q.testId == testId
    ensures forall i, j :: 0 <= i < j < |QuestionsOf(s, testId)| ==> QuestionsOf(s, testId)[i].id < QuestionsOf(s, testId)[j].id
  {
    var ids := QuestionIdsOf(s, testId);
    var qs := QuestionsOf(s, testId);
    assert forall i :: 0 <= i < |qs| ==> qs[i] == s.questions[ids[i]] && qs[i].id == ids[i];
  }

  /** The next answer can be added: the attempt has no answer to the next question yet. */
  lemma AnswerFresh(s0: DbState, attemptId: nat, qs: seq<Question>, texts: seq<Option<string>>, i: nat)
    requires KeysValid(s0) && |texts| == |qs| && i < |qs|
    requires forall k :: k in s0.answers ==> s0.answers[k].attemptId != attemptId
    requires forall a, b :: 0 <= a < b < |qs| ==> qs[a].id < qs[b].id
    ensures forall k :: k in WithAnswers(s0, attemptId, qs, texts, i).answers ==>
              !(WithAnswers(s0, attemptId, qs, texts, i).answers[k].attemptId == attemptId
                && WithAnswers(s0, attemptId, qs, texts, i).answers[k].questionId == qs[i].id)
  {
    var w := WithAnswers(s0, attemptId, qs, texts, i);
    WithAnswersRows(s0, attemptId, qs, texts, i);
    forall k | k in w.answers ensures !(w.answers[k].attemptId == attemptId && w.answers[k].questionId == qs[i].id) {
      if s0.nextAnswerId <= k {
        assert k !in s0.answers;
      }
    }
  }

  /** The question of the next turn belongs to the test and has no answer in the attempt yet. */
  lemma TurnReady(s0: DbState, attemptId: nat, testId: nat, qs: seq<Question>, texts: seq<Option<string>>, i: nat)
    requires KeysValid(s0) && qs == QuestionsOf(s0, testId) && |texts| == |qs| && i < |qs|
    requires forall k :: k in s0.answers ==> s0.answers[k].attemptId != attemptId
    requires KeysValid(WithAnswers(s0, attemptId, qs, texts, i))
    ensures qs[i].id in s0.questions && s0.questions[qs[i].id].testId == testId
    ensures AnswerFor(WithAnswers(s0, attemptId, qs, texts, i), attemptId, qs[i].id).None?
  {
    QuestionsOfKeyed(s0, testId);
    AnswerFresh(s0, attemptId, qs, texts, i);
  }

  /** The first half of a turn of the loop below: the answer to the `i`-th question of the test
      is added, ungraded. */
  method SaveAnswer(db: Store, ghost s0: DbState, attemptId: nat, testId: nat, qs: seq<Question>,
                    texts: seq<Option<string>>, i: nat)
    requires KeysValid(s0) && attemptId in s0.attempts && s0.attempts[attemptId].testId == testId
    requires qs == QuestionsOf(s0, testId) && |texts| == |qs| && i < |qs|
    requires forall k :: k in s0.answers ==> s0.answers[k].attemptId != attemptId
    requires db.Valid() && db.State() == WithAnswers(s0, attemptId, qs, texts, i)
    modifies db
    ensures db.Valid() && db.State() == WithAnswers(s0, attemptId, qs, texts, i + 1)
  {
    ghost var before := db.State();
    TurnReady(s0, attemptId, testId, qs, texts, i);
    var _ := db.AddAnswer(attemptId, qs[i].id, texts[i], None);
    assert db.State() == AddedAnswer(before, attemptId, qs[i], texts[i]);
  }

  /** The second half: `correct_count` goes up when the page's own check finds the answer right. */
  method CountAnswer(c: Codec, qs: seq<Question>, texts: seq<Option<string>>, i: nat, count: nat) returns (next: nat)
    requires |texts| == |qs| && i < |qs| && count == LegacyCount(c, qs, texts, i)
    ensures next == LegacyCount(c, qs, texts, i + 1)
  {
    next := count;
    if LegacyCorrect(c, qs[i], texts[i]) {
      next := count + 1;
    }
  }

  /** The loop over `test.questions`: each answer is saved ungraded and the right ones counted. */
  method RecordAnswers(db: Store, c: Codec, attemptId: nat, testId: nat, texts: seq<Option<string>>)
    returns (count: nat)
    requires db.Valid() && attemptId in db.attempts && db.attempts[attemptId].testId == testId
    requires |texts| == |QuestionsOf(db.State(), testId)|
    requires forall k :: k in db.answers ==> db.answers[k].attemptId != attemptId
    modifies db
    ensures db.Valid()
    ensures db.State() == WithAnswers(old(db.State()), attemptId, QuestionsOf(old(db.State()), testId), texts, |texts|)
    ensures count == LegacyCount(c, QuestionsOf(old(db.State()), testId), texts, |texts|)
  {
    ghost var s0 := db.State();
    var qs := QuestionsOf(db.State(), testId);
    count := 0;
    var i := 0;
    while i < |qs|
      invariant 0 <= i <= |qs|
      invariant db.Valid() && db.State() == WithAnswers(s0, attemptId, qs, texts, i)
      invariant count == LegacyCount(c, qs, texts, i)
    {
      SaveAnswer(db, s0, attemptId, testId, qs, texts, i);
      count := CountAnswer(c, qs, texts, i, count);
      i := i + 1;
    }
  }

  /** Why `take_test` (POST) saves nothing before reading the answers: the token names no
      published test, or nobody is logged in. */
  function TakeError(s: DbState, token: string, sessionUser: Option<nat>): (e: Option<ViewError>)
    requires KeysValid(s)
    ensures e.None? <==> TestByToken(s, token).Some? && s.tests[TestByToken(s, token).value].isPublished && sessionUser.Some?
    ensures TestByToken(s, token).None? ==> e == Some(Refused(TestUnavailable))
  {
    match TestByToken(s, token)
    case None => Some(Refused(TestUnavailable))
    case Some(id) =>
      if !s.tests[id].isPublished then Some(Refused(TestUnavailable))
      else if sessionUser.None? then Some(Refused(LoginToSave))
      else None
  }

  /** `db.session.add(attempt)`: the attempt opens under the next attempt id. */
  function Opened(s: DbState, testId: nat, userId: nat, now: nat): DbState {
    s.(attempts := s.attempts[s.nextAttemptId := Attempt(s.nextAttemptId, testId, userId, None, now, None)],
       nextAttemptId := s.nextAttemptId + 1)
  }

  /** The attempt gets its score and its finish time. */
  function Closed(s: DbState, id: nat, score: int, now: nat): DbState
    requires id in s.attempts
  {
    s.(attempts := s.attempts[id := s.attempts[id].(score := Some(score as real), finishedAt := Some(now))])
  }

  /** The store after a submission commits: a new attempt, one ungraded answer per question, and
      the attempt closed with the truncated percentage of right answers. */
  function Taken(s: DbState, c: Codec, testId: nat, userId: nat, texts: seq<Option<string>>, now: nat): DbState
    requires KeysValid(s) && |texts| == |QuestionsOf(s, testId)|
  {
    var qs := QuestionsOf(s, testId);
    Closed(WithAnswers(Opened(s, testId, userId, now), s.nextAttemptId, qs, texts, |texts|),
           s.nextAttemptId, LegacyScore(|qs|, LegacyCount(c, qs, texts, |texts|)), now)
  }

  /** The writes of `take_test` once the checks have passed. */
  method SaveSubmission(db: Store, c: Codec, testId: nat, userId: nat, texts: seq<Option<string>>, now: nat)
    returns (attemptId: nat)
    requires db.Valid() && testId in db.tests && |texts| == |QuestionsOf(db.State(), testId)|
    modifies db
    ensures db.Valid() && attemptId == old(db.nextAttemptId)
    ensures db.State() == Taken(old(db.State()), c, testId, userId, texts, now)
  {
    ghost var s0 := db.State();
    attemptId := db.AddAttempt(testId, userId, now);
    ghost var s1 := db.State();
    assert s1 == Opened(s0, testId, userId, now);
    assert QuestionsOf(s1, testId) == QuestionsOf(s0, testId);
    var total := |QuestionsOf(db.State(), testId)|;
    forall k | k in db.answers ensures db.answers[k].attemptId != attemptId {
      assert AnswerLinked(s0, s0.answers[k]);
    }
    var count := RecordAnswers(db, c, attemptId, testId, texts);
    var score := LegacyScore(total, count);
    Numeric.IntHundredths(score);
    db.CloseAttempt(attemptId, score as real, now);
  }

  /** `take_test` (POST). The session user is `sessionUser`; `now` stands for the clock. A checkbox
      value that is not an integer raises inside the loop and rolls everything back; the model
      looks for one before writing. */
  method TakeTest(db: Store, c: Codec, token: string, sessionUser: Option<nat>, form: Form, now: nat)
    returns (r: Result<nat, ViewError>)
    requires db.Valid()
    modifies db
    ensures db.Valid()
    ensures TakeError(old(db.State()), token, sessionUser).Some? ==>
              r == Err(TakeError(old(db.State()), token, sessionUser).value) && db.State() == old(db.State())
    ensures TakeError(old(db.State()), token, sessionUser).None?
            && !AnswersReadable(c, QuestionsOf(old(db.State()), TestByToken(old(db.State()), token).value), form) ==>
              r == Err(RolledBack) && db.State() == old(db.State())
    ensures TakeError(old(db.State()), token, sessionUser).None?
            && AnswersReadable(c, QuestionsOf(old(db.State()), TestByToken(old(db.State()), token).value), form) ==>
              && r == Ok(old(db.nextAttemptId))
              && db.State() == Taken(old(db.State()), c, TestByToken(old(db.State()), token).value, sessionUser.value,
                                     AnswerTexts(c, QuestionsOf(old(db.State()), TestByToken(old(db.State()), token).value), form), now)
  {
    var e := TakeError(db.State(), token, sessionUser);
    if e.Some? {
      return Err(e.value);
    }
    var testId := TestByToken(db.State(), token).value;
    var qs := QuestionsOf(db.State(), testId);
    if !AnswersReadable(c, qs, form) {
      return Err(RolledBack);
    }
    var id := SaveSubmission(db, c, testId, sessionUser.value, AnswerTexts(c, qs, form), now);
    r := Ok(id);
  }

  /** The answer rows of a committed submission: one per question, in question order, under
      consecutive ids from `firstId`, none graded. */
  function SubmittedRows(firstId: nat, attemptId: nat, qs: seq<Question>, texts: seq<Option<string>>): (rows: seq<Answer>)
    requires |texts| == |qs|
    ensures |rows| == |qs|
    ensures forall i :: 0 <= i < |qs| ==>
              rows[i].id == firstId + i && rows[i].attemptId == attemptId && rows[i].questionId == qs[i].id
              && rows[i].userAnswer == texts[i] && rows[i].isCorrect.None?
  {
    seq(|qs|, i requires 0 <= i < |qs| => Answer(firstId + i, attemptId, qs[i].id, texts[i], None))
  }

  /** The answers of the new attempt are exactly the submitted rows. */
  lemma SubmittedAnswers(s: DbState, w: DbState, attemptId: nat, qs: seq<Question>, texts: seq<Option<string>>)
    requires |texts| == |qs|
    requires forall k :: k in s.answers ==> s.answers[k].attemptId != attemptId
    requires w == WithAnswers(s, attemptId, qs, texts, |texts|) && KeysValid(w)
    ensures AnswersOf(w, attemptId) == SubmittedRows(s.nextAnswerId, attemptId, qs, texts)
  {
    var rows := SubmittedRows(s.nextAnswerId, attemptId, qs, texts);
    AnswersAtNewIds(s, w, attemptId, qs, texts, rows);
    AnswersOnlyOfAttempt(s, w, attemptId, qs, texts);
    AnswersOfRange(w, attemptId, s.nextAnswerId, rows);
  }

  /** When the answers of an attempt are exactly the ids `a .. a + |rows|`, holding `rows`, they
      are what `attempt.answers` lists. */
  lemma AnswersOfRange(w: DbState, attemptId: nat, a: nat, rows: seq<Answer>)
    requires a + |rows| == w.nextAnswerId
    requires forall k :: k < w.nextAnswerId ==> (k in w.answers && w.answers[k].attemptId == attemptId <==> a <= k)
    requires forall k :: a <= k < a + |rows| ==> k in w.answers && w.answers[k] == rows[k - a]
    ensures KeysValid(w) ==> AnswersOf(w, attemptId) == rows
  {
    var p := (x: Answer) => x.attemptId == attemptId;
    forall k | k < w.nextAnswerId ensures (k in w.answers && p(w.answers[k]) <==> a <= k < a + |rows|) {
    }
    Tables.RowsRange(w.answers, w.nextAnswerId, p, a, rows);
  }

  lemma AnswersAtNewIds(s: DbState, w: DbState, attemptId: nat, qs: seq<Question>, texts: seq<Option<string>>, rows: seq<Answer>)
    requires |texts| == |qs| && w == WithAnswers(s, attemptId, qs, texts, |texts|)
    requires rows == SubmittedRows(s.nextAnswerId, attemptId, qs, texts)
    ensures s.nextAnswerId + |rows| == w.nextAnswerId
    ensures forall k :: s.nextAnswerId <= k < s.nextAnswerId + |rows| ==> k in w.answers && w.answers[k] == rows[k - s.nextAnswerId]
  {
    AnswersAtIds(s, attemptId, qs, texts, |texts|);
  }

  lemma AnswersOnlyOfAttempt(s: DbState, w: DbState, attemptId: nat, qs: seq<Question>, texts: seq<Option<string>>)
    requires |texts| == |qs| && w == WithAnswers(s, attemptId, qs, texts, |texts|)
    requires forall k :: k in s.answers ==> s.answers[k].attemptId != attemptId
    ensures forall k :: k < w.nextAnswerId ==> (k in w.answers && w.answers[k].attemptId == attemptId <==> s.nextAnswerId <= k)
  {
    AnswersKeepOld(s, attemptId, qs, texts, |texts|);
    AnswersAtIds(s, attemptId, qs, texts, |texts|);
  }

  /** The opened, answered and closed store keeps its keys. */
  lemma TakenKeysValid(s: DbState, testId: nat, userId: nat, now: nat, qs: seq<Question>, texts: seq<Option<string>>,
                       score: int, r: DbState)
    requires KeysValid(s) && |texts| == |qs|
    requires r == Closed(WithAnswers(Opened(s, testId, userId, now), s.nextAttemptId, qs, texts, |texts|), s.nextAttemptId, score, now)
    ensures KeysValid(WithAnswers(Opened(s, testId, userId, now), s.nextAttemptId, qs, texts, |texts|))
    ensures KeysValid(r)
  {
    var id := s.nextAttemptId;
    var s1 := Opened(s, testId, userId, now);
    AttemptKeys(s, s1, s1.attempts[id]);
    AnswersKeysValid(s1, id, qs, texts, |texts|);
    var w := WithAnswers(s1, id, qs, texts, |texts|);
    AttemptKeys(w, r, r.attempts[id]);
  }

  /** What a committed submission leaves behind: a new attempt of the test by the user, finished
      now with the truncated percentage of right answers as its score. */
  lemma TakenAttempt(s: DbState, c: Codec, testId: nat, userId: nat, texts: seq<Option<string>>, now: nat, r: DbState)
    requires KeysValid(s) && |texts| == |QuestionsOf(s, testId)|
    requires r == Taken(s, c, testId, userId, texts, now)
    ensures s.nextAttemptId !in s.attempts
    ensures r.attempts == s.attempts[s.nextAttemptId := Attempt(s.nextAttemptId, testId, userId,
              Some(LegacyScore(|texts|, LegacyCount(c, QuestionsOf(s, testId), texts, |texts|)) as real),
              now, Some(now))]
  {
    var id := s.nextAttemptId;
    var qs := QuestionsOf(s, testId);
    var s1 := Opened(s, testId, userId, now);
    var w := WithAnswers(s1, id, qs, texts, |texts|);
    assert r == Closed(w, id, LegacyScore(|texts|, LegacyCount(c, qs, texts, |texts|)), now);
    assert w.attempts == s1.attempts;
  }

  /** Besides the new attempt and its answers, nothing changes. */
  lemma TakenFrame(s: DbState, c: Codec, testId: nat, userId: nat, texts: seq<Option<string>>, now: nat, r: DbState)
    requires KeysValid(s) && |texts| == |QuestionsOf(s, testId)|
    requires r == Taken(s, c, testId, userId, texts, now)
    ensures r == s.(attempts := r.attempts, answers := r.answers,
                    nextAttemptId := s.nextAttemptId + 1, nextAnswerId := s.nextAnswerId + |texts|)
    ensures forall k :: k in s.answers ==> k in r.answers && r.answers[k] == s.answers[k]
  {
    var id := s.nextAttemptId;
    var qs := QuestionsOf(s, testId);
    var s1 := Opened(s, testId, userId, now);
    var w := WithAnswers(s1, id, qs, texts, |texts|);
    assert r == Closed(w, id, LegacyScore(|texts|, LegacyCount(c, qs, texts, |texts|)), now);
    AnswersKeepOld(s1, id, qs, texts, |texts|);
  }

  /** The answers of the new attempt are exactly the submitted rows: one per question of the test,
      in question order, each holding the submitted text and ungraded. */
  lemma TakenAnswers(s: DbState, c: Codec, testId: nat, userId: nat, texts: seq<Option<string>>, now: nat, r: DbState)
    requires KeysValid(s) && LinksValid(s)
    requires |texts| == |QuestionsOf(s, testId)|
    requires r == Taken(s, c, testId, userId, texts, now)
    ensures KeysValid(r)
    ensures AnswersOf(r, s.nextAttemptId) == SubmittedRows(s.nextAnswerId, s.nextAttemptId, QuestionsOf(s, testId), texts)
  {
    var id := s.nextAttemptId;
    var qs := QuestionsOf(s, testId);
    var s1 := Opened(s, testId, userId, now);
    var w := WithAnswers(s1, id, qs, texts, |texts|);
    var score := LegacyScore(|qs|, LegacyCount(c, qs, texts, |texts|));
    assert r == Closed(w, id, score, now);
    TakenKeysValid(s, testId, userId, now, qs, texts, score, r);
    forall k | k in s1.answers ensures s1.answers[k].attemptId != id {
      assert AnswerLinked(s, s.answers[k]);
    }
    SubmittedAnswers(s1, w, id, qs, texts);
    assert r.answers == w.answers && r.nextAnswerId == w.nextAnswerId;
  }

  // -------------------------------------------------------------- test_result

  /** What `test_result.html` is given. */
  datatype ResultPage = ResultPage(attempt: Attempt, test: Test, correctCount: int, totalQuestions: nat)

  /** The count of right answers the page shows, as written: `int(score * total / 100)`. */
  function CorrectCountAsWritten(score: real, total: nat): (n: int)
    ensures 0.0 <= score ==> 0 <= n && n as real <= score * total as real / 100.0
  {
    Numeric.Trunc(score * total as real / 100.0)
  }

  /** The count of right answers recovered from a truncated percentage: the least count whose
      percentage is not below the score. */
  function CorrectCount(score: real, total: nat): (n: int)
    ensures score * total as real / 100.0 <= n as real
  {
    Numeric.Ceil(score * total as real / 100.0)
  }

  /** `test_result(attempt_id)`. A missing attempt or test is a 404; a visitor who is neither the
      attempt's user nor the test's author is refused; an attempt without a score makes the
      multiplication raise (500). */
  function TestResult(s: DbState, attemptId: nat, sessionUser: Option<nat>): (r: Result<ResultPage, ViewError>)
    requires KeysValid(s)
    ensures attemptId !in s.attempts || s.attempts[attemptId].testId !in s.tests ==> r == Err(NotFound)
    ensures r.Ok? <==>
              && attemptId in s.attempts && s.attempts[attemptId].testId in s.tests
              && sessionUser.Some?
              && (sessionUser.value == s.attempts[attemptId].userId
                  || sessionUser.value == s.tests[s.attempts[attemptId].testId].userId)
              && s.attempts[attemptId].score.Some?
    ensures r.Ok? ==> && r.value.attempt == s.attempts[attemptId]
                      && r.value.test == s.tests[r.value.attempt.testId]
                      && r.value.totalQuestions == |QuestionsOf(s, r.value.attempt.testId)|
    ensures r.Ok? ==> r.value.correctCount == CorrectCountAsWritten(r.value.attempt.score.value, r.value.totalQuestions)
    ensures attemptId in s.attempts && s.attempts[attemptId].testId in s.tests && sessionUser.None? ==>
              r == Err(Refused(LoginToView))
  {
    if attemptId !in s.attempts then Err(NotFound)
    else
      var attempt := s.attempts[attemptId];
      if attempt.testId !in s.tests then Err(NotFound)
      else
        var test := s.tests[attempt.testId];
        match sessionUser
        case None => Err(Refused(LoginToView))
        case Some(u) =>
          if u != attempt.userId && u != test.userId then Err(Refused(ResultForbidden))
          else
            var total := |QuestionsOf(s, test.id)|;
            match attempt.score
            case None => Err(ServerError)
            case Some(score) => Ok(ResultPage(attempt, test, CorrectCountAsWritten(score, total), total))
  }

  /** The corrected page: the same checks and the same page, with the count rounded up. */
  function TestResultFixed(s: DbState, attemptId: nat, sessionUser: Option<nat>): (r: Result<ResultPage, ViewError>)
    requires KeysValid(s)
    ensures r.Err? <==> TestResult(s, attemptId, sessionUser).Err?
    ensures r.Err? ==> r == TestResult(s, attemptId, sessionUser)
    ensures r.Ok? ==> var page := TestResult(s, attemptId, sessionUser).value;
                      r.value == page.(correctCount := CorrectCount(page.attempt.score.value, page.totalQuestions))
  {
    match TestResult(s, attemptId, sessionUser)
    case Err(e) => Err(e)
    case Ok(page) => Ok(page.(correctCount := CorrectCount(page.attempt.score.value, page.totalQuestions)))
  }

  /** The truncated percentage never credits a right answer that was not given: the as-written
      count is at most the true one. */
  lemma {:induction false} CorrectCountAsWrittenAtMost(total: nat, correct: nat)
    requires correct <= total
    ensures CorrectCountAsWritten(LegacyScore(total, correct) as real, total) <= correct
  {
    if total > 0 {
      var t := total as real;
      var x := correct as real / t * 100.0;
      var score := LegacyScore(total, correct) as real;
      assert score <= x;
      assert x * t / 100.0 == correct as real;
      assert score * t <= x * t;
    }
  }

  /** One right answer out of three scores 33, and the page then shows no right answer. */
  lemma CorrectCountAsWrittenUndercounts()
    ensures LegacyScore(3, 1) == 33
    ensures CorrectCountAsWritten(33.0, 3) == 0
  {
    var x := 1.0 / 3.0 * 100.0;
    assert 33.0 <= x < 34.0;
  }

  /** With at most 100 questions the score `int(correct / total * 100)` loses less than one
      question's worth, so rounding up gives back the count of right answers. */
  lemma {:induction false} CorrectCountRecovered(total: nat, correct: nat)
    requires 1 <= total <= 100 && correct <= total
    ensures CorrectCount(LegacyScore(total, correct) as real, total) == correct
  {
    var t := total as real;
    var cr := correct as real;
    var x := cr / t * 100.0;
    var score := LegacyScore(total, correct) as real;
    assert x * t == cr * 100.0;
    assert 0.0 <= x;
    assert score == Numeric.Trunc(x) as real;
    assert score <= x < score + 1.0;
    ScaledBack(t, cr, x, score);
    CeilOfNear(score * t / 100.0, correct);
  }

  /** A percentage `x` of `t <= 100` questions, cut down by less than one point, scales back to
      less than one question below the count. */
  lemma ScaledBack(t: real, cr: real, x: real, score: real)
    requires 1.0 <= t <= 100.0 && x * t == cr * 100.0 && score <= x < score + 1.0
    ensures cr - 1.0 < score * t / 100.0 <= cr
  {
    assert score * t <= x * t;
    assert (x - 1.0) * t < score * t;
    assert (x - 1.0) * t == cr * 100.0 - t;
  }

  /** Rounding up a value within one below an integer gives that integer. */
  lemma CeilOfNear(y: real, m: int)
    requires m as real - 1.0 < y <= m as real
    ensures Numeric.Ceil(y) == m
  {
    var n := Numeric.Ceil(y);
    assert m - 1 < n < m + 1;
  }

  /** The page shown right after a submission reports the number of answers the submission got
      right, out of the test's questions. */
  lemma ResultOfTakenAttempt(s: DbState, c: Codec, testId: nat, userId: nat, texts: seq<Option<string>>, now: nat, r: DbState)
    requires KeysValid(s) && LinksValid(s) && testId in s.tests
    requires |texts| == |QuestionsOf(s, testId)| <= 100
    requires r == Taken(s, c, testId, userId, texts, now)
    ensures KeysValid(r)
    ensures TestResult(r, s.nextAttemptId, Some(userId)).Ok?
    ensures TestResult(r, s.nextAttemptId, Some(userId)).value.correctCount <= LegacyCount(c, QuestionsOf(s, testId), texts, |texts|)
    ensures TestResultFixed(r, s.nextAttemptId, Some(userId)).value.correctCount == LegacyCount(c, QuestionsOf(s, testId), texts, |texts|)
    ensures TestResultFixed(r, s.nextAttemptId, Some(userId)).value.totalQuestions == |QuestionsOf(s, testId)|
  {
    TakenAttempt(s, c, testId, userId, texts, now, r);
    TakenFrame(s, c, testId, userId, texts, now, r);
    TakenAnswers(s, c, testId, userId, texts, now, r);
    var qs := QuestionsOf(s, testId);
    assert QuestionsOf(r, testId) == qs;
    ResultOfScored(r, s.nextAttemptId, userId, |qs|, LegacyCount(c, qs, texts, |texts|));
  }

  /** The result page of an attempt scored by `take_test` shows its owner at most the real count
      as written, and the real count once corrected. */
  lemma ResultOfScored(r: DbState, id: nat, userId: nat, total: nat, count: nat)
    requires KeysValid(r) && id in r.attempts && r.attempts[id].testId in r.tests
    requires r.attempts[id].userId == userId && r.attempts[id].score == Some(LegacyScore(total, count) as real)
    requires |QuestionsOf(r, r.attempts[id].testId)| == total <= 100 && count <= total
    ensures TestResult(r, id, Some(userId)).Ok?
    ensures TestResult(r, id, Some(userId)).value.correctCount <= count
    ensures TestResultFixed(r, id, Some(userId)).value.correctCount == count
    ensures TestResultFixed(r, id, Some(userId)).value.totalQuestions == total
  {
    CorrectCountAsWrittenAtMost(total, count);
    if total > 0 {
      CorrectCountRecovered(total, count);
    }
  }

  /** As written, the page of a one-right-of-three attempt reports no right answer. */
  lemma ResultUndercountsOneOfThree(r: DbState, id: nat, userId: nat)
    requires KeysValid(r) && id in r.attempts && r.attempts[id].testId in r.tests
    requires r.attempts[id].userId == userId && r.attempts[id].score == Some(LegacyScore(3, 1) as real)
    requires |QuestionsOf(r, r.attempts[id].testId)| == 3
    ensures TestResult(r, id, Some(userId)) == Ok(ResultPage(r.attempts[id], r.tests[r.attempts[id].testId], 0, 3))
    ensures TestResultFixed(r, id, Some(userId)).value.correctCount == 1
  {
    CorrectCountAsWrittenUndercounts();
    CorrectCountRecovered(3, 1);
  }

  // ------------------------------------------------- forms graded by the page

  /** A radio question created from the form is marked right exactly when the submitted value is
      an integer equal to the first ticked index. */
  lemma FormSingleGraded(c: Codec, id: nat, testId: nat, d: Draft, text: string)
    requires Lawful(c) && d.qtype == "single" && d.correct != []
    ensures LegacyCorrect(c, DraftRow(c, id, testId, d), Some(text)) <==> PyText.ParseInt(text) == Some(d.correct[0] as int)
  {
    StoredIndices(c, id, testId, d);
    SingleAgainstFirst(c, DraftRow(c, id, testId, d), JInts(d.correct), text);
  }

  /** A `single` question whose stored answer decodes to a list is graded against the list's
      first element. */
  lemma SingleAgainstFirst(c: Codec, q: Question, xs: seq<Json>, text: string)
    requires q.qtype == "single" && Present(q.correctAnswer) && c.loads(q.correctAnswer.value) == Some(JList(xs))
    requires |xs| > 0 && xs[0].JInt?
    ensures LegacyCorrect(c, q, Some(text)) <==> PyText.ParseInt(text) == Some(xs[0].i)
  {
    if PyText.ParseInt(text) == Some(xs[0].i) {
      SingleFirstRight(c, q, xs, text);
    } else if LegacyCorrect(c, q, Some(text)) {
      SingleFirstOnly(c, q, xs, text);
    }
  }

  lemma SingleFirstOnly(c: Codec, q: Question, xs: seq<Json>, text: string)
    requires q.qtype == "single" && Present(q.correctAnswer) && c.loads(q.correctAnswer.value) == Some(JList(xs))
    requires |xs| > 0 && xs[0].JInt? && LegacyCorrect(c, q, Some(text))
    ensures PyText.ParseInt(text) == Some(xs[0].i)
  {
    LegacyCorrectSingle(c, q, JList(xs), Some(text));
    assert LegacySingleCorrect(JList(xs), text);
  }

  /** For a `single` question whose stored answer decodes, the page's check is its `single` branch. */
  lemma LegacyCorrectSingle(c: Codec, q: Question, correct: Json, text: Option<string>)
    requires q.qtype == "single" && Present(q.correctAnswer) && c.loads(q.correctAnswer.value) == Some(correct)
    ensures LegacyCorrect(c, q, text) <==> Present(text) && LegacySingleCorrect(correct, text.value)
  {
    assert q.qtype != "multiple";
  }

  lemma SingleFirstRight(c: Codec, q: Question, xs: seq<Json>, text: string)
    requires q.qtype == "single" && Present(q.correctAnswer) && c.loads(q.correctAnswer.value) == Some(JList(xs))
    requires |xs| > 0 && xs[0].JInt? && PyText.ParseInt(text) == Some(xs[0].i)
    ensures LegacyCorrect(c, q, Some(text))
  {
    if text == [] {
      EmptyNotInt();
    }
  }

  lemma EmptyNotInt()
    ensures PyText.ParseInt([]) == None
  {
    assert PyText.Strip([]) == [];
  }

  function AsReals(ns: seq<int>): (r: seq<real>)
    ensures |r| == |ns| && forall i :: 0 <= i < |ns| ==> r[i] == ns[i] as real
  {
    seq(|ns|, i requires 0 <= i < |ns| => ns[i] as real)
  }

  /** How often a real occurs among the ints of `ns`: as often as the int it equals, if any. */
  lemma {:induction false} RealCounts(ns: seq<int>, x: real)
    ensures multiset(AsReals(ns))[x] == if x == x.Floor as real then multiset(ns)[x.Floor] else 0
  {
    if ns != [] {
      var n := |ns| - 1;
      RealCounts(ns[..n], x);
      assert ns == ns[..n] + [ns[n]];
      assert AsReals(ns) == AsReals(ns[..n]) + [ns[n] as real];
    }
  }

  /** Comparing ints as reals (as Python compares `int` with `float`) loses nothing: two lists
      of ints hold the same reals exactly when they hold the same ints. */
  lemma SameRealsSameInts(ms: seq<int>, ns: seq<int>)
    ensures multiset(AsReals(ms)) == multiset(AsReals(ns)) <==> multiset(ms) == multiset(ns)
  {
    if multiset(AsReals(ms)) == multiset(AsReals(ns)) {
      forall n: int ensures multiset(ms)[n] == multiset(ns)[n] {
        RealCounts(ms, n as real);
        RealCounts(ns, n as real);
      }
    }
    if multiset(ms) == multiset(ns) {
      forall x: real ensures multiset(AsReals(ms))[x] == multiset(AsReals(ns))[x] {
        RealCounts(ms, x);
        RealCounts(ns, x);
      }
    }
  }

  /** `sorted(xs) == sorted(ys)` on two lists of ints: the same ints, each as often. */
  lemma SortedEqualInts(ns: seq<int>, ms: seq<int>)
    ensures Grading.SortedEqual(JInts(ns), JInts(ms)) == Some(multiset(ns) == multiset(ms))
  {
    IntsAsNumbers(ns);
    IntsAsNumbers(ms);
    SameRealsSameInts(ns, ms);
  }

  /** A list of ints is all numbers, and its values are the ints as reals. */
  lemma IntsAsNumbers(ns: seq<int>)
    ensures Grading.AllNumbers(JInts(ns)) && Grading.NumValues(JInts(ns)) == AsReals(ns)
  {
    assert Grading.AllNumbers(JInts(ns));
    assert Grading.NumValues(JInts(ns)) == AsReals(ns);
  }

  /** The correct answer a form draft stores decodes to the list of its indices. */
  lemma StoredIndices(c: Codec, id: nat, testId: nat, d: Draft)
    requires Lawful(c) && d.correct != []
    ensures Present(DraftRow(c, id, testId, d).correctAnswer)
    ensures c.loads(DraftRow(c, id, testId, d).correctAnswer.value) == Some(JList(JInts(d.correct)))
  {
    var items := seq(|d.correct|, i requires 0 <= i < |d.correct| => JInt(d.correct[i]));
    assert items == JInts(d.correct);
    assert c.loads(c.dumps(JList(items))) == Some(JList(items));
    assert c.dumps(JList(items)) != [];
  }

  /** A checkbox question created from the form is marked right exactly when the ticked values
      are the stored indices in some order, each as often. */
  lemma FormMultipleGraded(c: Codec, id: nat, testId: nat, d: Draft, ns: seq<int>)
    requires Lawful(c) && d.qtype == "multiple" && d.correct != []
    ensures LegacyCorrect(c, DraftRow(c, id, testId, d), Some(c.dumps(JList(JInts(ns)))))
            <==> multiset(ns) == multiset(d.correct)
  {
    StoredIndices(c, id, testId, d);
    assert c.loads(c.dumps(JList(JInts(ns)))) == Some(JList(JInts(ns)));
    assert c.dumps(JList(JInts(ns))) != [];
    SortedEqualInts(ns, d.correct);
  }

  /** Ticking nothing on such a question is wrong. */
  lemma FormMultipleUnticked(c: Codec, id: nat, testId: nat, d: Draft)
    requires Lawful(c) && d.qtype == "multiple" && d.correct != []
    ensures !LegacyCorrect(c, DraftRow(c, id, testId, d), Some(""))
  {
    StoredIndices(c, id, testId, d);
    SortedEqualInts([], d.correct);
    assert JInts([]) == [];
    assert multiset(d.correct) != multiset{} by {
      assert d.correct[0] in multiset(d.correct);
    }
  }
}
