/** What the grading engine promises: a `single` question is graded by the chosen index,
    a `multiple` question by the multiset of chosen indices (order never matters), a `text`
    question ignores case and surrounding whitespace, and the score counts only right answers. */
module GradingProperties {
  import opened Wrappers
  import opened JsonValues
  import opened Models
  import opened Grading
  import PyText

  predicate AllInts(xs: seq<Json>) {
    forall i :: 0 <= i < |xs| ==> xs[i].JInt?
  }

  function Ints(ns: seq<int>): (r: seq<Json>)
    ensures |r| == |ns| && AllInts(r)
    ensures forall i :: 0 <= i < |ns| ==> r[i] == JInt(ns[i])
  {
    seq(|ns|, i requires 0 <= i < |ns| => JInt(ns[i]))
  }

  /** A `single` question whose stored correct answer is the canonical `[k]`. */
  predicate SingleWithCorrect(c: Codec, q: Question, k: int) {
    q.qtype == "single" && q.correctAnswer == Some(c.dumps(JList([JInt(k)])))
  }

  /** Picking index `i` of a `single` question with correct index `k` is right exactly when `i == k`,
      whether the index arrives as a number or as its decimal string. */
  lemma SingleGradedByIndex(c: Codec, q: Question, k: int, i: int)
    requires Lawful(c) && SingleWithCorrect(c, q, k)
    ensures CheckAnswer(c, q, JInt(i)) == Graded(if i == k then Correct else Incorrect)
    ensures CheckAnswer(c, q, JStr(PyText.DecimalString(i))) == Graded(if i == k then Correct else Incorrect)
  {
    assert c.loads(c.dumps(JList([JInt(k)]))) == Some(JList([JInt(k)]));
    assert CheckAnswer(c, q, JInt(i)) == Graded(GradeSingle(c, JList([JInt(k)]), JInt(i)));
    assert c.loads(c.dumps(JInt(i))) == Some(JInt(i));
    assert ChosenIndex(c, JStr(PyText.DecimalString(i))) == Some(i);
    assert CheckAnswer(c, q, JStr(PyText.DecimalString(i))) == Graded(GradeSingle(c, JList([JInt(k)]), JStr(PyText.DecimalString(i))));
  }

  /** The older bare encoding `k` of a `single` correct answer grades the same as `[k]`. */
  lemma SingleBareCorrectAnswer(c: Codec, q: Question, q': Question, k: int, answer: Json)
    requires Lawful(c)
    requires SingleWithCorrect(c, q, k)
    requires q' == q.(correctAnswer := Some(c.dumps(JInt(k))))
    ensures CheckAnswer(c, q', answer) == CheckAnswer(c, q, answer)
  {
    assert c.loads(c.dumps(JList([JInt(k)]))) == Some(JList([JInt(k)]));
    assert c.loads(c.dumps(JInt(k))) == Some(JInt(k));
  }

  /** Once a `single` question has a decodable correct answer, grading is total and two-valued:
      an answer that names no integer is wrong, never an error. */
  lemma SingleNeverUngraded(c: Codec, q: Question, answer: Json)
    requires q.qtype == "single" && Present(q.correctAnswer) && c.loads(q.correctAnswer.value).Some?
    ensures CheckAnswer(c, q, answer).Graded?
    ensures CheckAnswer(c, q, answer).verdict != Ungraded
    ensures ChosenIndex(c, answer).None? ==> CheckAnswer(c, q, answer) == Graded(Incorrect)
  {
  }

  lemma {:induction false} IntValuesCount(xs: seq<Json>, v: real)
    requires AllInts(xs)
    ensures AllNumbers(xs)
    ensures multiset(NumValues(xs))[v] == if v == v.Floor as real then multiset(xs)[JInt(v.Floor)] else 0
  {
    if xs != [] {
      IntValuesCount(xs[1..], v);
      assert xs == [xs[0]] + xs[1..];
      assert NumValues(xs) == [NumValue(xs[0])] + NumValues(xs[1..]);
    }
  }

  /** For lists of ints, equal sorted value lists means equal multisets. */
  lemma IntValuesSameMultiset(xs: seq<Json>, ys: seq<Json>)
    requires AllInts(xs) && AllInts(ys)
    ensures AllNumbers(xs) && AllNumbers(ys)
    ensures multiset(NumValues(xs)) == multiset(NumValues(ys)) <==> multiset(xs) == multiset(ys)
  {
    IntValuesCount(xs, 0.0);
    IntValuesCount(ys, 0.0);
    if multiset(xs) == multiset(ys) {
      forall v ensures multiset(NumValues(xs))[v] == multiset(NumValues(ys))[v] {
        IntValuesCount(xs, v);
        IntValuesCount(ys, v);
      }
    }
    if multiset(NumValues(xs)) == multiset(NumValues(ys)) {
      forall x ensures multiset(xs)[x] == multiset(ys)[x] {
        if x.JInt? {
          IntValuesCount(xs, x.i as real);
          IntValuesCount(ys, x.i as real);
        } else {
          assert x !in xs && x !in ys;
        }
      }
    }
  }

  /** A `multiple` question with correct indices `S` grades a list of indices `P` as right exactly
      when `P` and `S` hold the same indices the same number of times: order is irrelevant and
      duplicates count. */
  lemma MultipleGradedByMultiset(c: Codec, q: Question, s: seq<int>, p: seq<int>)
    requires Lawful(c)
    requires q.qtype == "multiple" && q.correctAnswer == Some(c.dumps(JList(Ints(s))))
    ensures CheckAnswer(c, q, JList(Ints(p))) == Graded(if multiset(p) == multiset(s) then Correct else Incorrect)
  {
    assert c.loads(c.dumps(JList(Ints(s)))) == Some(JList(Ints(s)));
    assert CheckAnswer(c, q, JList(Ints(p))) == 
      (match GradeMultiple(c, JList(Ints(s)), JList(Ints(p))) case None => Raised case Some(v) => Graded(v));
    IntValuesSameMultiset(Ints(p), Ints(s));
    SameIntsSameMultiset(p, s);
    assert SortedEqual(Ints(p), Ints(s)) == Some(multiset(p) == multiset(s));
  }

  lemma {:induction false} IntsCount(ns: seq<int>, n: int)
    ensures multiset(Ints(ns))[JInt(n)] == multiset(ns)[n]
  {
    if ns != [] {
      IntsCount(ns[1..], n);
      assert ns == [ns[0]] + ns[1..];
      assert Ints(ns) == [JInt(ns[0])] + Ints(ns[1..]);
    }
  }

  lemma SameIntsSameMultiset(p: seq<int>, s: seq<int>)
    ensures multiset(Ints(p)) == multiset(Ints(s)) <==> multiset(p) == multiset(s)
  {
    if multiset(p) == multiset(s) {
      forall x ensures multiset(Ints(p))[x] == multiset(Ints(s))[x] {
        if x.JInt? {
          IntsCount(p, x.i);
          IntsCount(s, x.i);
        } else {
          assert x !in Ints(p) && x !in Ints(s);
        }
      }
    }
    if multiset(Ints(p)) == multiset(Ints(s)) {
      forall n ensures multiset(p)[n] == multiset(s)[n] {
        IntsCount(p, n);
        IntsCount(s, n);
      }
    }
  }

  /** Any reordering of the correct indices is right; adding an index or leaving one out is wrong. */
  lemma MultipleOrderIrrelevant(c: Codec, q: Question, s: seq<int>, p: seq<int>, extra: int)
    requires Lawful(c)
    requires q.qtype == "multiple" && q.correctAnswer == Some(c.dumps(JList(Ints(s))))
    requires multiset(p) == multiset(s)
    ensures CheckAnswer(c, q, JList(Ints(p))) == Graded(Correct)
    ensures CheckAnswer(c, q, JList(Ints(p + [extra]))) == Graded(Incorrect)
    ensures |p| > 0 ==> CheckAnswer(c, q, JList(Ints(p[1..]))) == Graded(Incorrect)
  {
    MultipleGradedByMultiset(c, q, s, p);
    MultipleGradedByMultiset(c, q, s, p + [extra]);
    assert |multiset(p + [extra])| == |p| + 1 == |multiset(s)| + 1;
    if |p| > 0 {
      MultipleGradedByMultiset(c, q, s, p[1..]);
      assert |multiset(p[1..])| == |p| - 1;
    }
  }

  /** A stored list of two number lists is matched by the same two lists in the other order:
      Python orders lists lexicographically, so `sorted` makes the order irrelevant. */
  lemma ListsOfListsOrderIrrelevant(c: Codec, q: Question, a: seq<Json>, b: seq<Json>)
    requires Lawful(c) && AllNumbers(a) && AllNumbers(b)
    requires q.qtype == "multiple" && q.correctAnswer == Some(c.dumps(JList([JList(a), JList(b)])))
    ensures CheckAnswer(c, q, JList([JList(b), JList(a)])) == Graded(Correct)
  {
    SwappedListsSortEqual(a, b);
    MultipleGradedBySorting(c, q, [JList(a), JList(b)], [JList(b), JList(a)]);
  }

  /** A `multiple` question storing a list grades a submitted list by comparing both sorted. */
  lemma MultipleGradedBySorting(c: Codec, q: Question, stored: seq<Json>, sent: seq<Json>)
    requires Lawful(c)
    requires q.qtype == "multiple" && q.correctAnswer == Some(c.dumps(JList(stored)))
    requires SortedEqual(sent, stored).Some?
    ensures CheckAnswer(c, q, JList(sent)) == Graded(if SortedEqual(sent, stored).value then Correct else Incorrect)
  {
    assert c.loads(c.dumps(JList(stored))) == Some(JList(stored));
    assert c.dumps(JList(stored)) != [];
    ListsGradedBySorting(c, stored, sent);
  }

  lemma ListsGradedBySorting(c: Codec, stored: seq<Json>, sent: seq<Json>)
    requires SortedEqual(sent, stored).Some?
    ensures GradeMultiple(c, JList(stored), JList(sent)) == Some(if SortedEqual(sent, stored).value then Correct else Incorrect)
  {
  }

  lemma SwappedListsSortEqual(a: seq<Json>, b: seq<Json>)
    requires AllNumbers(a) && AllNumbers(b)
    ensures SortedEqual([JList(b), JList(a)], [JList(a), JList(b)]) == Some(true)
  {
    var stored := [JList(a), JList(b)];
    var sent := [JList(b), JList(a)];
    assert AllNumberLists(stored) && AllNumberLists(sent);
    assert ListValues(sent) == [NumValues(b), NumValues(a)];
    assert ListValues(stored) == [NumValues(a), NumValues(b)];
    assert multiset(ListValues(sent)) == multiset(ListValues(stored));
  }

  /** A `text` question is graded by `GradeText` against the decoded stored string. */
  lemma TextGradedByText(c: Codec, q: Question, t: string, a: Json)
    requires Lawful(c)
    requires q.qtype == "text" && q.correctAnswer == Some(c.dumps(JStr(t)))
    ensures CheckAnswer(c, q, a) == Graded(GradeText(c, JStr(t), a))
  {
    assert c.loads(c.dumps(JStr(t))) == Some(JStr(t));
  }

  lemma PaddingIgnored(c: Codec, t: string, pre: string, u: string, post: string)
    requires Lawful(c)
    requires PyText.AllSpace(pre) && PyText.AllSpace(post)
    requires u == [] || (!PyText.IsSpace(u[0]) && !PyText.IsSpace(u[|u| - 1]))
    ensures GradeText(c, JStr(t), JStr(pre + u + post)) ==
              if PyText.Lower(u) == PyText.Lower(PyText.Strip(t)) then Correct else Incorrect
  {
    assert c.str(JStr(pre + u + post)) == pre + u + post && c.str(JStr(t)) == t;
    PyText.StripPadded(pre, u, post);
  }

  /** A `text` question compares after stripping and lower-casing both sides: surrounding
      whitespace on the answer never matters. */
  lemma TextIgnoresSurroundingSpace(c: Codec, q: Question, t: string, pre: string, u: string, post: string)
    requires Lawful(c)
    requires q.qtype == "text" && q.correctAnswer == Some(c.dumps(JStr(t)))
    requires PyText.AllSpace(pre) && PyText.AllSpace(post)
    requires u == [] || (!PyText.IsSpace(u[0]) && !PyText.IsSpace(u[|u| - 1]))
    ensures CheckAnswer(c, q, JStr(pre + u + post)) ==
              Graded(if PyText.Lower(u) == PyText.Lower(PyText.Strip(t)) then Correct else Incorrect)
  {
    TextGradedByText(c, q, t, JStr(pre + u + post));
    PaddingIgnored(c, t, pre, u, post);
  }

  /** Ungraded and wrong answers both add nothing: only `is_correct is True` counts. */
  lemma {:induction false} OnlyCorrectCounts(xs: seq<Option<bool>>, ys: seq<Option<bool>>)
    requires |xs| == |ys|
    requires forall i :: 0 <= i < |xs| ==> (xs[i] == Some(true) <==> ys[i] == Some(true))
    ensures CountCorrect(xs) == CountCorrect(ys)
  {
    if xs != [] {
      OnlyCorrectCounts(xs[..|xs| - 1], ys[..|ys| - 1]);
    }
  }

  /** Two right answers, one wrong and one ungraded, out of four questions, score 50. */
  lemma ScoreExample()
    ensures CalculateScore(4, [Some(true), Some(true), Some(false), None]) == 50.0
  {
    var xs := [Some(true), Some(true), Some(false), None];
    assert CountCorrect(xs[..1]) == 1 by { assert xs[..1][..0] == []; }
    assert CountCorrect(xs[..2]) == 2 by { assert xs[..2][..1] == xs[..1]; }
    assert CountCorrect(xs[..3]) == 2 by { assert xs[..3][..2] == xs[..2]; }
    assert CountCorrect(xs) == 2 by { assert xs[..3] == xs[..|xs| - 1]; }
    assert 2.0 * 100.0 / 4.0 == 50.0;
    Numeric.Round2Fixes(50.0);
  }
}
