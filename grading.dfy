/** The grading engine of `backend/services/attempt_service.py`: `check_answer`, which decides
    whether one submitted answer is right, wrong or ungraded, and `calculate_score`, which turns
    the graded answers of an attempt into a percentage. */
module Grading {
  import opened Wrappers
  import opened JsonValues
  import opened Models
  import PyText
  import Numeric

  /** `is_correct`: True, False, or None for "ungraded". */
  datatype Verdict = Correct | Incorrect | Ungraded

  function IsCorrectColumn(v: Verdict): (b: Option<bool>)
    ensures b == Some(true) <==> v == Correct
    ensures b.None? <==> v == Ungraded
  {
    match v
    case Correct => Some(true)
    case Incorrect => Some(false)
    case Ungraded => None
  }

  /** What `check_answer` does: it returns a verdict, or it raises (`sorted` on a list whose
      elements Python cannot order). */
  datatype Grade = Graded(verdict: Verdict) | Raised

  /** The option index a `single` answer names, as the coercion chain finds it: a string is
      JSON-decoded and passed to `int()`, and if that fails the string itself goes to `int()`;
      any other value goes to `int()`. None when no integer can be extracted. */
  function ChosenIndex(c: Codec, answer: Json): (r: Option<int>)
    ensures answer.JInt? ==> r == Some(answer.i)
    ensures !answer.JStr? ==> (r.Some? <==> IsNumber(answer))
  {
    match answer
    case JStr(s) =>
      var viaJson := match c.loads(s) case Some(v) => PyInt(v) case None => ValueError;
      if viaJson.Converted? then Some(viaJson.value)
      else (match PyText.ParseInt(s) case Some(n) => Some(n) case None => None)
    case _ =>
      match PyInt(answer) case Converted(n) => Some(n) case _ => None
  }

  predicate AllNumbers(xs: seq<Json>) {
    forall i :: 0 <= i < |xs| ==> IsNumber(xs[i])
  }

  predicate AllStrings(xs: seq<Json>) {
    forall i :: 0 <= i < |xs| ==> xs[i].JStr?
  }

  /** Every element is a list of numbers. */
  predicate AllNumberLists(xs: seq<Json>) {
    forall i :: 0 <= i < |xs| ==> xs[i].JList? && AllNumbers(xs[i].items)
  }

  /** Every element is a list of strings. */
  predicate AllStringLists(xs: seq<Json>) {
    forall i :: 0 <= i < |xs| ==> xs[i].JList? && AllStrings(xs[i].items)
  }

  /** `sorted(xs)` succeeds: at most one element, or all elements numbers, or all strings, or all
      lists of numbers, or all lists of strings (lists are ordered lexicographically). Python
      compares `None`s, objects and mixed kinds only by raising `TypeError`. */
  predicate Sortable(xs: seq<Json>) {
    |xs| <= 1 || AllNumbers(xs) || AllStrings(xs) || AllNumberLists(xs) || AllStringLists(xs)
  }

  function NumValues(xs: seq<Json>): (r: seq<real>)
    requires AllNumbers(xs)
    ensures |r| == |xs| && forall i :: 0 <= i < |xs| ==> r[i] == NumValue(xs[i])
  {
    if xs == [] then [] else [NumValue(xs[0])] + NumValues(xs[1..])
  }

  /** The values of a list of number lists, list by list. */
  function ListValues(xs: seq<Json>): (r: seq<seq<real>>)
    requires AllNumberLists(xs)
    ensures |r| == |xs| && forall i :: 0 <= i < |xs| ==> r[i] == NumValues(xs[i].items)
  {
    seq(|xs|, i requires 0 <= i < |xs| => NumValues(xs[i].items))
  }

  /** `sorted(xs) == sorted(ys)`; None when either `sorted` raises. Two sorted lists of numbers
      are equal exactly when they hold the same values as often; likewise for strings, and for
      lists of number lists or of string lists, compared list by list. */
  function SortedEqual(xs: seq<Json>, ys: seq<Json>): (r: Option<bool>)
    ensures r.None? <==> !Sortable(xs) || !Sortable(ys)
    ensures r == Some(true) ==> |xs| == |ys|
    ensures AllNumberLists(xs) && AllNumberLists(ys) && (|xs| > 1 || |ys| > 1) ==>
              r == Some(multiset(ListValues(xs)) == multiset(ListValues(ys)))
  {
    if !Sortable(xs) || !Sortable(ys) then None
    else if AllNumbers(xs) && AllNumbers(ys) then Some(multiset(NumValues(xs)) == multiset(NumValues(ys)))
    else if AllStrings(xs) && AllStrings(ys) then Some(multiset(xs) == multiset(ys))
    else if AllNumberLists(xs) && AllNumberLists(ys) then Some(multiset(ListValues(xs)) == multiset(ListValues(ys)))
    else if AllStringLists(xs) && AllStringLists(ys) then Some(multiset(xs) == multiset(ys))
    else if |xs| <= 1 && |ys| <= 1 then Some(|xs| == |ys| && (xs == [] || PyEq(xs[0], ys[0])))
    else Some(false)
  }

  /** `single`: the chosen index against the first element of the stored list (or against a
      bare stored value); an answer naming no integer is wrong. */
  function GradeSingle(c: Codec, correct: Json, answer: Json): (v: Verdict)
    ensures v != Ungraded
    ensures ChosenIndex(c, answer).None? ==> v == Incorrect
  {
    match ChosenIndex(c, answer)
    case None => Incorrect
    case Some(n) =>
      if correct.JList? then
        if |correct.items| > 0 && EqualsInt(correct.items[0], n) then Correct else Incorrect
      else if EqualsInt(correct, n) then Correct else Incorrect
  }

  /** `multiple`: the submitted list (a string is JSON-decoded first) against the stored list,
      both sorted; None when `sorted` raises. */
  function GradeMultiple(c: Codec, correct: Json, answer: Json): (r: Option<Verdict>)
    // raising needs a stored list, and a submitted list or a string that decodes to one
    ensures r.None? ==> correct.JList? && (answer.JList? || answer.JStr?)
    ensures correct.JList? && Sortable(correct.items) && answer.JList? && Sortable(answer.items) ==> r.Some?
    ensures !answer.JStr? && !answer.JList? ==> r == Some(Incorrect)
  {
    var submitted := if answer.JStr? then c.loads(answer.s) else Some(answer);
    if submitted.None? || !submitted.value.JList? then Some(Incorrect)
    else if !correct.JList? then Some(Ungraded)
    else match SortedEqual(submitted.value.items, correct.items)
      case None => None
      case Some(same) => Some(if same then Correct else Incorrect)
  }

  /** `text`: both sides rendered with `str`, stripped and lower-cased, then compared. */
  function GradeText(c: Codec, correct: Json, answer: Json): (v: Verdict)
    ensures v != Ungraded
    ensures v == Correct <==> PyText.Lower(PyText.Strip(c.str(answer))) == PyText.Lower(PyText.Strip(c.str(correct)))
  {
    var norm := (j: Json) => PyText.Lower(PyText.Strip(c.str(j)));
    if norm(answer) == norm(correct) then Correct else Incorrect
  }

  /** `check_answer(question, user_answer)`. */
  function CheckAnswer(c: Codec, q: Question, answer: Json): (g: Grade)
    // no stored correct answer, or one that is not JSON: ungraded whatever was submitted
    ensures !Present(q.correctAnswer) ==> g == Graded(Ungraded)
    ensures Present(q.correctAnswer) && c.loads(q.correctAnswer.value).None? ==> g == Graded(Ungraded)
    // only a `multiple` question can make grading raise
    ensures g.Raised? ==> q.qtype == "multiple"
    // question types other than the three known ones are never graded
    ensures q.qtype !in {"single", "multiple", "text"} ==> g == Graded(Ungraded)
  {
    if !Present(q.correctAnswer) then Graded(Ungraded)
    else match c.loads(q.correctAnswer.value)
      case None => Graded(Ungraded)
      case Some(correct) =>
        if q.qtype == "single" then Graded(GradeSingle(c, correct, answer))
        else if q.qtype == "multiple" then
          match GradeMultiple(c, correct, answer)
          case None => Raised
          case Some(v) => Graded(v)
        else if q.qtype == "text" then Graded(GradeText(c, correct, answer))
        else Graded(Ungraded)
  }

  /** `sum(1 for a in answers if a.is_correct is True)`. */
  function CountCorrect(isCorrect: seq<Option<bool>>): (n: nat)
    ensures n <= |isCorrect|
    ensures n == 0 <==> forall i :: 0 <= i < |isCorrect| ==> isCorrect[i] != Some(true)
  {
    if isCorrect == [] then 0
    else CountCorrect(isCorrect[..|isCorrect| - 1]) + (if isCorrect[|isCorrect| - 1] == Some(true) then 1 else 0)
  }

  /** `calculate_score`: the percentage of the test's questions answered correctly, rounded to two
      decimals; the denominator is the number of questions in the test, not of answers given. */
  function CalculateScore(totalQuestions: nat, isCorrect: seq<Option<bool>>): (score: real)
    ensures totalQuestions == 0 ==> score == 0.0
    ensures 0.0 <= score
    ensures |isCorrect| <= totalQuestions ==> score <= 100.0
    ensures totalQuestions > 0 ==> score == Numeric.Round2(CountCorrect(isCorrect) as real * 100.0 / totalQuestions as real)
  {
    if totalQuestions == 0 then 0.0
    else
      var n := CountCorrect(isCorrect);
      Percentage(n, totalQuestions);
      Numeric.Round2(n as real * 100.0 / totalQuestions as real)
  }

  /** `n / total * 100` is a percentage: never negative, at most 100 when `n <= total`. */
  lemma Percentage(n: nat, total: nat)
    requires total > 0
    ensures 0.0 <= n as real * 100.0 / total as real
    ensures n <= total ==> n as real * 100.0 / total as real <= 100.0
  {
    var t := total as real;
    var x := n as real * 100.0 / t;
    assert x * t == n as real * 100.0;
    if n <= total {
      assert x * t <= t * 100.0;
    }
  }
}
