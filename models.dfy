/** The rows of the four tables of the quiz (`tests`, `questions`, `test_attempts`, `answers`),
    the `users` row the services read, and the dictionaries each row's `to_dict` builds.
    JSON-valued columns (`options`, `correct_answer`, `user_answer`) hold text, decoded on the way out. */
module Models {
  import opened Wrappers
  import opened JsonValues

  /** A test authored by user `userId`. `linkToken` is unique among tests (see `Database.Store.Valid`);
      `isPublished` starts false. Timestamps are opaque instants. */
  datatype Test = Test(
    id: nat, title: string, description: Option<string>, userId: nat,
    isPublished: bool, linkToken: Option<string>, createdAt: nat, updatedAt: nat)

  /** A question of test `testId`; `options` and `correctAnswer` hold JSON text or are null. */
  datatype Question = Question(
    id: nat, testId: nat, text: string, qtype: string,
    options: Option<string>, correctAnswer: Option<string>, orderIndex: int)

  /** One pass of user `userId` through test `testId`; `score` and `finishedAt` are null until it is finished. */
  datatype Attempt = Attempt(
    id: nat, testId: nat, userId: nat, score: Option<real>, startedAt: nat, finishedAt: Option<nat>)

  /** The answer given in attempt `attemptId` to question `questionId`; `isCorrect` null means ungraded. */
  datatype Answer = Answer(
    id: nat, attemptId: nat, questionId: nat, userAnswer: Option<string>, isCorrect: Option<bool>)

  /** A registered user; `email` is unique, `passwordHash` is the opaque hash of the password. */
  datatype User = User(id: nat, name: string, email: string, passwordHash: string)

  /** Python's `if text:` on a nullable text column. */
  predicate Present(t: Option<string>) {
    t.Some? && t.value != []
  }

  /** `Question.to_dict`: an absent key is `None`. */
  datatype QuestionDict = QuestionDict(
    id: nat, questionText: string, questionType: string, orderIndex: int,
    options: Option<Json>, correctAnswer: Option<Json>)

  function QuestionToDict(c: Codec, q: Question, includeCorrectAnswer: bool): (d: QuestionDict)
    ensures d.id == q.id && d.questionText == q.text && d.questionType == q.qtype && d.orderIndex == q.orderIndex
    // options appear only when the stored text is non-empty; undecodable text reads as []
    ensures d.options.Some? <==> Present(q.options)
    ensures Present(q.options) && c.loads(q.options.value).None? ==> d.options == Some(JList([]))
    // the correct answer is shown only on request, and raw text stands in for undecodable JSON
    ensures d.correctAnswer.Some? <==> includeCorrectAnswer && Present(q.correctAnswer)
    ensures d.correctAnswer.Some? && c.loads(q.correctAnswer.value).None? ==>
              d.correctAnswer == Some(JStr(q.correctAnswer.value))
  {
    var options :=
      if Present(q.options) then
        Some(match c.loads(q.options.value) case Some(v) => v case None => JList([]))
      else None;
    var correct :=
      if includeCorrectAnswer && Present(q.correctAnswer) then
        Some(match c.loads(q.correctAnswer.value) case Some(v) => v case None => JStr(q.correctAnswer.value))
      else None;
    QuestionDict(q.id, q.text, q.qtype, q.orderIndex, options, correct)
  }

  /** `Answer.to_dict`. */
  datatype AnswerDict = AnswerDict(id: nat, questionId: nat, isCorrect: Option<bool>, userAnswer: Option<Json>)

  function AnswerToDict(c: Codec, a: Answer): (d: AnswerDict)
    ensures d.id == a.id && d.questionId == a.questionId && d.isCorrect == a.isCorrect
    ensures d.userAnswer.Some? <==> Present(a.userAnswer)
    ensures Present(a.userAnswer) && c.loads(a.userAnswer.value).None? ==> d.userAnswer == Some(JStr(a.userAnswer.value))
  {
    var answer :=
      if Present(a.userAnswer) then
        Some(match c.loads(a.userAnswer.value) case Some(v) => v case None => JStr(a.userAnswer.value))
      else None;
    AnswerDict(a.id, a.questionId, a.isCorrect, answer)
  }

  /** `TestAttempt.to_dict`; `answers` is present only with `include_answers`. */
  datatype AttemptDict = AttemptDict(
    id: nat, testId: nat, userId: nat, score: Option<real>, startedAt: nat, finishedAt: Option<nat>,
    answers: Option<seq<AnswerDict>>)

  function AttemptToDict(c: Codec, a: Attempt, answers: seq<Answer>, includeAnswers: bool): (d: AttemptDict)
    ensures d.id == a.id && d.testId == a.testId && d.userId == a.userId && d.score == a.score
    ensures d.startedAt == a.startedAt && d.finishedAt == a.finishedAt
    ensures d.answers.Some? <==> includeAnswers
    ensures includeAnswers ==>
              && |d.answers.value| == |answers|
              && forall i :: 0 <= i < |answers| ==> d.answers.value[i] == AnswerToDict(c, answers[i])
  {
    var dicts := if includeAnswers then Some(seq(|answers|, i requires 0 <= i < |answers| => AnswerToDict(c, answers[i]))) else None;
    AttemptDict(a.id, a.testId, a.userId, a.score, a.startedAt, a.finishedAt, dicts)
  }

  /** Whether a sequence of questions is in non-decreasing `order_index` order. */
  predicate OrderedByIndex(qs: seq<Question>) {
    forall i, j :: 0 <= i < j < |qs| ==> qs[i].orderIndex <= qs[j].orderIndex
  }

  /** Insert `q` after every question whose `order_index` is not larger (keeps equal keys in order). */
  function InsertByIndex(q: Question, qs: seq<Question>): (r: seq<Question>)
    requires OrderedByIndex(qs)
    ensures OrderedByIndex(r)
    ensures multiset(r) == multiset(qs) + multiset{q}
  {
    if qs == [] || q.orderIndex < qs[0].orderIndex then [q] + qs
    else
      var rest := InsertByIndex(q, qs[1..]);
      InsertStep(q, qs, rest);
      [qs[0]] + rest
  }

  /** The recursive case of `InsertByIndex`: the head stays in front of the insertion into the tail. */
  lemma InsertStep(q: Question, qs: seq<Question>, rest: seq<Question>)
    requires qs != [] && OrderedByIndex(qs) && qs[0].orderIndex <= q.orderIndex
    requires OrderedByIndex(rest) && multiset(rest) == multiset(qs[1..]) + multiset{q}
    ensures OrderedByIndex([qs[0]] + rest)
    ensures multiset([qs[0]] + rest) == multiset(qs) + multiset{q}
  {
    assert qs == [qs[0]] + qs[1..];
    forall x | x in rest ensures qs[0].orderIndex <= x.orderIndex {
      assert x in multiset(rest);
      if x != q {
        assert x in multiset(qs[1..]);
        assert x in qs[1..];
      }
    }
    ConsOrdered(qs[0], rest);
  }

  lemma ConsOrdered(h: Question, rest: seq<Question>)
    requires OrderedByIndex(rest)
    requires forall x :: x in rest ==> h.orderIndex <= x.orderIndex
    ensures OrderedByIndex([h] + rest)
  {
    var r := [h] + rest;
    forall i, j | 0 <= i < j < |r| ensures r[i].orderIndex <= r[j].orderIndex {
      assert r[j] == rest[j - 1];
      if i > 0 {
        assert r[i] == rest[i - 1];
      }
    }
  }

  /** `sorted(questions, key=lambda x: x.order_index)`: a stable sort on `order_index`. */
  function SortByIndex(qs: seq<Question>): (r: seq<Question>)
    ensures OrderedByIndex(r)
    ensures multiset(r) == multiset(qs)
  {
    if qs == [] then []
    else
      assert qs == qs[..|qs| - 1] + [qs[|qs| - 1]];
      InsertByIndex(qs[|qs| - 1], SortByIndex(qs[..|qs| - 1]))
  }

  /** The questions of `qs` whose `order_index` is `k`, in their order in `qs`. */
  function WithIndex(qs: seq<Question>, k: int): (r: seq<Question>)
    ensures |r| <= |qs|
    ensures forall i :: 0 <= i < |r| ==> r[i].orderIndex == k
  {
    if qs == [] then []
    else (if qs[0].orderIndex == k then [qs[0]] else []) + WithIndex(qs[1..], k)
  }

  /** `sorted` is stable: questions sharing an `order_index` keep their relative order, and an
      already ordered list is returned as it is. */
  lemma SortByIndexStable(qs: seq<Question>, k: int)
    ensures WithIndex(SortByIndex(qs), k) == WithIndex(qs, k)
    ensures OrderedByIndex(qs) ==> SortByIndex(qs) == qs
  {
    SortKeepsTies(qs, k);
    if OrderedByIndex(qs) {
      SortOrderedIsIdentity(qs);
    }
  }

  lemma {:induction false} SortKeepsTies(qs: seq<Question>, k: int)
    ensures WithIndex(SortByIndex(qs), k) == WithIndex(qs, k)
  {
    if qs != [] {
      var init, last := qs[..|qs| - 1], qs[|qs| - 1];
      assert qs == init + [last];
      assert SortByIndex(qs) == InsertByIndex(last, SortByIndex(init));
      SortKeepsTies(init, k);
      InsertKeepsTies(last, SortByIndex(init), k);
      WithIndexAppend(init, [last], k);
      WithIndexCons(last, [], k);
    }
  }

  lemma {:induction false} SortOrderedIsIdentity(qs: seq<Question>)
    requires OrderedByIndex(qs)
    ensures SortByIndex(qs) == qs
  {
    if qs != [] {
      var init, last := qs[..|qs| - 1], qs[|qs| - 1];
      assert qs == init + [last];
      assert OrderedByIndex(init);
      SortOrderedIsIdentity(init);
      forall x | x in init ensures x.orderIndex <= last.orderIndex {
        var i :| 0 <= i < |init| && init[i] == x;
        assert qs[i] == x;
      }
      InsertAtEnd(last, init);
    }
  }

  /** Inserting a question whose `order_index` is not smaller than any appends it. */
  lemma {:induction false} InsertAtEnd(q: Question, qs: seq<Question>)
    requires OrderedByIndex(qs) && forall x :: x in qs ==> x.orderIndex <= q.orderIndex
    ensures InsertByIndex(q, qs) == qs + [q]
  {
    if qs != [] {
      assert qs[0] in qs;
      assert OrderedByIndex(qs[1..]);
      forall x | x in qs[1..] ensures x.orderIndex <= q.orderIndex {
        assert x in qs;
      }
      InsertAtEnd(q, qs[1..]);
      assert qs == [qs[0]] + qs[1..];
    }
  }

  /** Inserting a question adds it after the questions of its `order_index`. */
  lemma {:induction false} InsertKeepsTies(q: Question, qs: seq<Question>, k: int)
    requires OrderedByIndex(qs)
    ensures WithIndex(InsertByIndex(q, qs), k) == WithIndex(qs, k) + (if q.orderIndex == k then [q] else [])
  {
    if qs == [] || q.orderIndex < qs[0].orderIndex {
      assert InsertByIndex(q, qs) == [q] + qs;
      InsertFrontTies(q, qs, k);
    } else {
      var rest := InsertByIndex(q, qs[1..]);
      assert InsertByIndex(q, qs) == [qs[0]] + rest;
      assert OrderedByIndex(qs[1..]);
      InsertKeepsTies(q, qs[1..], k);
      InsertBehindTies(q, qs, rest, k);
    }
  }

  /** A question placed in front of larger `order_index`es comes last among its own. */
  lemma InsertFrontTies(q: Question, qs: seq<Question>, k: int)
    requires OrderedByIndex(qs) && (qs == [] || q.orderIndex < qs[0].orderIndex)
    ensures WithIndex([q] + qs, k) == WithIndex(qs, k) + (if q.orderIndex == k then [q] else [])
  {
    WithIndexCons(q, qs, k);
    if q.orderIndex == k {
      forall x | x in qs ensures x.orderIndex != k {
        var i :| 0 <= i < |qs| && qs[i] == x;
        assert qs[0].orderIndex <= qs[i].orderIndex;
      }
      NoneWithIndex(qs, k);
    }
  }

  /** The head stays in front of an insertion into the tail. */
  lemma InsertBehindTies(q: Question, qs: seq<Question>, rest: seq<Question>, k: int)
    requires qs != []
    requires WithIndex(rest, k) == WithIndex(qs[1..], k) + (if q.orderIndex == k then [q] else [])
    ensures WithIndex([qs[0]] + rest, k) == WithIndex(qs, k) + (if q.orderIndex == k then [q] else [])
  {
    var tail: seq<Question> := if q.orderIndex == k then [q] else [];
    var h: seq<Question> := if qs[0].orderIndex == k then [qs[0]] else [];
    WithIndexCons(qs[0], rest, k);
    assert WithIndex(qs, k) == h + WithIndex(qs[1..], k);
    ConcatAssoc(h, WithIndex(qs[1..], k), tail);
  }

  lemma ConcatAssoc(a: seq<Question>, b: seq<Question>, c: seq<Question>)
    ensures a + (b + c) == (a + b) + c
  {
  }

  lemma WithIndexCons(x: Question, xs: seq<Question>, k: int)
    ensures WithIndex([x] + xs, k) == (if x.orderIndex == k then [x] else []) + WithIndex(xs, k)
  {
    assert ([x] + xs)[1..] == xs;
  }

  lemma {:induction false} NoneWithIndex(qs: seq<Question>, k: int)
    requires forall x :: x in qs ==> x.orderIndex != k
    ensures WithIndex(qs, k) == []
  {
    if qs != [] {
      assert qs[0] in qs;
      forall x | x in qs[1..] ensures x.orderIndex != k {
        assert x in qs;
      }
      NoneWithIndex(qs[1..], k);
    }
  }

  lemma {:induction false} WithIndexAppend(a: seq<Question>, b: seq<Question>, k: int)
    ensures WithIndex(a + b, k) == WithIndex(a, k) + WithIndex(b, k)
  {
    if a != [] {
      assert (a + b)[1..] == a[1..] + b;
      WithIndexAppend(a[1..], b, k);
    } else {
      assert a + b == b;
    }
  }

  /** `Test.to_dict`; `questions` is present only with `include_questions`, sorted by `order_index`,
      and shown without their correct answers. */
  datatype TestDict = TestDict(
    id: nat, title: string, description: Option<string>, userId: nat, isPublished: bool,
    linkToken: Option<string>, createdAt: nat, updatedAt: nat, attemptsCount: nat,
    questions: Option<seq<QuestionDict>>)

  /** The questions of a test as `to_dict()` without answers, in `order_index` order. */
  function SortedQuestionDicts(c: Codec, questions: seq<Question>): (r: seq<QuestionDict>)
    ensures |r| == |questions| == |SortByIndex(questions)|
    ensures forall i :: 0 <= i < |questions| ==> r[i] == QuestionToDict(c, SortByIndex(questions)[i], false)
    ensures forall i, j :: 0 <= i < j < |r| ==> r[i].orderIndex <= r[j].orderIndex
    ensures forall i :: 0 <= i < |r| ==> r[i].correctAnswer.None?
  {
    var sorted := SortByIndex(questions);
    assert |sorted| == |multiset(sorted)| == |multiset(questions)| == |questions|;
    seq(|sorted|, i requires 0 <= i < |sorted| => QuestionToDict(c, sorted[i], false))
  }

  function TestToDict(c: Codec, t: Test, questions: seq<Question>, attempts: seq<Attempt>, includeQuestions: bool): (d: TestDict)
    ensures d.id == t.id && d.userId == t.userId && d.isPublished == t.isPublished && d.linkToken == t.linkToken
    ensures d.title == t.title && d.description == t.description
    ensures d.createdAt == t.createdAt && d.updatedAt == t.updatedAt
    ensures d.attemptsCount == |attempts|
    ensures d.questions.Some? <==> includeQuestions
    // the questions are those given, reordered by `SortByIndex` (a permutation), each as `to_dict()`
    ensures includeQuestions ==>
              |d.questions.value| == |questions| == |SortByIndex(questions)|
              && (forall i :: 0 <= i < |questions| ==>
                    d.questions.value[i] == QuestionToDict(c, SortByIndex(questions)[i], false))
              && (forall i, j :: 0 <= i < j < |questions| ==> d.questions.value[i].orderIndex <= d.questions.value[j].orderIndex)
              && (forall i :: 0 <= i < |questions| ==> d.questions.value[i].correctAnswer.None?)
  {
    var dicts := if includeQuestions then Some(SortedQuestionDicts(c, questions)) else None;
    TestDict(t.id, t.title, t.description, t.userId, t.isPublished, t.linkToken, t.createdAt, t.updatedAt,
             |attempts|, dicts)
  }
}
