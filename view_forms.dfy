/** The form parsing of the server-rendered authoring pages in `backend/routes/views.py`
    (`create_test` and `edit_test`): which question indices a submitted form names, the run of
    options of one question, and the question drafts built from them. */
module ViewForms {
  import opened Wrappers
  import opened JsonValues
  import opened PyText
  import Tables

  /** A submitted form: its (key, value) pairs in the order the browser sent them. */
  type Form = seq<(string, string)>

  /** `request.form.get(key)`: the first value sent under `key`, if any. */
  function Get(form: Form, key: string): Option<string> {
    if form == [] then None
    else if form[0].0 == key then Some(form[0].1)
    else Get(form[1..], key)
  }

  /** `get` finds a value exactly when the key was sent, and the value found was sent under it. */
  lemma {:induction false} GetFinds(form: Form, key: string)
    ensures Get(form, key).Some? ==> (key, Get(form, key).value) in form
    ensures Get(form, key).None? <==> forall i :: 0 <= i < |form| ==> form[i].0 != key
  {
    if form != [] && form[0].0 != key {
      GetFinds(form[1..], key);
      assert forall i :: 1 <= i < |form| ==> form[i] == form[1..][i - 1];
    }
  }

  /** `request.form.get(key, default)`. */
  function GetOr(form: Form, key: string, default: string): string {
    match Get(form, key)
    case Some(v) => v
    case None => default
  }

  /** `request.form.getlist(key)`: every value sent under `key`, in order. */
  function GetList(form: Form, key: string): (r: seq<string>)
    ensures |r| <= |form|
    ensures forall i :: 0 <= i < |r| ==> (key, r[i]) in form
    ensures r == [] <==> Get(form, key).None?
    ensures r != [] ==> r[0] == Get(form, key).value
  {
    if form == [] then []
    else (if form[0].0 == key then [form[0].1] else []) + GetList(form[1..], key)
  }

  /** `request.form.get(key, '').strip()`: the stripped first value sent under `key`, or the
      empty string. */
  function Field(form: Form, key: string): string {
    if form == [] then ""
    else if form[0].0 == key then Strip(form[0].1)
    else Field(form[1..], key)
  }

  lemma {:induction false} FieldIsStrippedGet(form: Form, key: string)
    ensures Field(form, key) == Strip(GetOr(form, key, ""))
  {
    if form == [] {
      StrippedAsIs("");
    } else if form[0].0 != key {
      FieldIsStrippedGet(form[1..], key);
    }
  }

  // ---------------------------------------------------------------- keys

  const QuestionsPrefix: string := "questions["
  const TextSuffix: string := "][text]"

  /** `f'questions[{idx}][text]'`. */
  function TextKey(idx: int): string {
    QuestionsPrefix + DecimalString(idx) + TextSuffix
  }

  /** `f'questions[{idx}][type]'`. */
  function TypeKey(idx: int): string {
    QuestionsPrefix + DecimalString(idx) + "][type]"
  }

  /** `f'questions[{idx}][options][{option_idx}][text]'`. */
  function OptionTextKey(idx: int, j: nat): string {
    QuestionsPrefix + DecimalString(idx) + "][options][" + DecimalString(j) + TextSuffix
  }

  /** `f'questions[{idx}][options][{option_idx}][correct]'`. */
  function OptionCorrectKey(idx: int, j: nat): string {
    QuestionsPrefix + DecimalString(idx) + "][options][" + DecimalString(j) + "][correct]"
  }

  /** `key.startswith('questions[') and key.endswith('][text]')`. */
  predicate IsTextKey(key: string) {
    && |key| >= |QuestionsPrefix| && key[..|QuestionsPrefix|] == QuestionsPrefix
    && |key| >= |TextSuffix| && key[|key| - |TextSuffix|..] == TextSuffix
  }

  /** `s.split(c)[0]`: the part of `s` before the first `c`. */
  function Before(s: string, c: char): string {
    if s == [] || s[0] == c then [] else [s[0]] + Before(s[1..], c)
  }

  /** `key.split('[')[1].split(']')[0]` for a key that starts with `questions[`: the text after
      the first `[`, up to the next `[` or `]`. */
  function IndexField(key: string): string
    requires |key| >= |QuestionsPrefix|
  {
    Before(Before(key[|QuestionsPrefix|..], '['), ']')
  }

  /** `int(index)` of a question text key; None when `int` raises `ValueError`. */
  function KeyIndex(key: string): Option<int>
    requires |key| >= |QuestionsPrefix|
  {
    ParseInt(IndexField(key))
  }

  lemma {:induction false} BeforeStops(s: string, t: string, c: char)
    requires c !in s && t != [] && t[0] == c
    ensures Before(s + t, c) == s
  {
    if s != [] {
      assert (s + t)[1..] == s[1..] + t;
      BeforeStops(s[1..], t, c);
    } else {
      assert s + t == t;
    }
  }

  lemma {:induction false} NatStringChars(n: nat)
    ensures forall i :: 0 <= i < |NatString(n)| ==> IsDigit(NatString(n)[i])
  {
  }

  lemma DecimalHasNoBrackets(n: int)
    ensures '[' !in DecimalString(n) && ']' !in DecimalString(n)
  {
    if n < 0 {
      NatStringChars(-n);
      assert DecimalString(n) == "-" + NatString(-n);
    } else {
      NatStringChars(n);
    }
  }

  /** The text key the pages generate for question `idx` is recognised, and `int` of its index
      field gives `idx` back. */
  lemma TextKeyIndex(idx: int)
    ensures IsTextKey(TextKey(idx))
    ensures KeyIndex(TextKey(idx)) == Some(idx)
  {
    var d := DecimalString(idx);
    var key := TextKey(idx);
    assert key[..|QuestionsPrefix|] == QuestionsPrefix;
    assert key[|key| - |TextSuffix|..] == TextSuffix;
    DecimalHasNoBrackets(idx);
    assert key[|QuestionsPrefix|..] == d + TextSuffix;
    BeforeStops(d + "]", "[text]", '[');
    assert d + TextSuffix == (d + "]") + "[text]";
    BeforeStops(d, "]", ']');
    ParseDecimal(idx);
  }

  // ---------------------------------------------------------------- question indices

  /** Some question text key was sent whose index field converts to `n`. */
  ghost predicate IndexSent(form: Form, n: int) {
    exists i :: 0 <= i < |form| && IsTextKey(form[i].0) && KeyIndex(form[i].0) == Some(n)
  }

  /** The set `question_indices` the first loop of `create_test` and `edit_test` fills, or None
      when `int(index)` raises for some question text key (the whole request is then rolled back). */
  function ScanIndices(form: Form): (r: Option<set<int>>)
    ensures r.Some? ==> forall n :: n in r.value ==> IndexSent(form, n)
  {
    if form == [] then Some({})
    else
      var front := form[..|form| - 1];
      var key := form[|form| - 1].0;
      assert forall i :: 0 <= i < |front| ==> front[i] == form[i];
      match ScanIndices(front)
      case None => None
      case Some(found) =>
        if !IsTextKey(key) then Some(found)
        else match KeyIndex(key)
          case None => None
          case Some(n) => Some(found + {n})
  }

  /** The scan fails exactly when some question text key's index does not convert; otherwise
      every converted index is in the set. */
  lemma ScanIndicesConverts(form: Form)
    ensures ScanIndices(form).Some? <==>
              forall i :: 0 <= i < |form| && IsTextKey(form[i].0) ==> KeyIndex(form[i].0).Some?
    ensures ScanIndices(form).Some? ==>
              forall i :: 0 <= i < |form| && IsTextKey(form[i].0) ==> KeyIndex(form[i].0).value in ScanIndices(form).value
  {
    if ScanIndices(form).Some? {
      ScanIndicesHolds(form);
    } else {
      ScanIndicesFails(form);
    }
  }

  lemma {:induction false} ScanIndicesHolds(form: Form)
    requires ScanIndices(form).Some?
    ensures forall i :: 0 <= i < |form| && IsTextKey(form[i].0) ==>
              KeyIndex(form[i].0).Some? && KeyIndex(form[i].0).value in ScanIndices(form).value
  {
    if form != [] {
      var front := form[..|form| - 1];
      ScanIndicesHolds(front);
      assert ScanIndices(front).value <= ScanIndices(form).value;
      forall i | 0 <= i < |form| - 1 && IsTextKey(form[i].0)
        ensures KeyIndex(form[i].0).Some? && KeyIndex(form[i].0).value in ScanIndices(form).value
      {
        assert form[i] == front[i];
      }
    }
  }

  lemma {:induction false} ScanIndicesFails(form: Form)
    requires ScanIndices(form).None?
    ensures exists i :: 0 <= i < |form| && IsTextKey(form[i].0) && KeyIndex(form[i].0).None?
  {
    var front := form[..|form| - 1];
    if ScanIndices(front).None? {
      ScanIndicesFails(front);
      var i :| 0 <= i < |front| && IsTextKey(front[i].0) && KeyIndex(front[i].0).None?;
      assert form[i] == front[i];
    } else {
      var last := |form| - 1;
      assert IsTextKey(form[last].0) && KeyIndex(form[last].0).None?;
    }
  }


  /** The loop over `request.form.keys()` collecting question indices. Keys sent twice are
      visited twice, which adds nothing to the set. */
  method QuestionIndices(form: Form) returns (r: Option<set<int>>)
    ensures r == ScanIndices(form)
  {
    var found: set<int> := {};
    var i := 0;
    while i < |form|
      invariant 0 <= i <= |form|
      invariant ScanIndices(form[..i]) == Some(found)
    {
      assert form[..i + 1][..i] == form[..i];
      var key := form[i].0;
      if IsTextKey(key) {
        var index := KeyIndex(key);
        if index.None? {
          assert form[..i + 1][i] == form[i];
          PrefixFails(form, i + 1);
          return None;
        }
        found := found + {index.value};
      }
      i := i + 1;
    }
    assert form[..|form|] == form;
    r := Some(found);
  }

  /** Once a prefix of the form holds a key that does not convert, the whole form fails. */
  lemma PrefixFails(form: Form, n: nat)
    requires n <= |form| && ScanIndices(form[..n]).None?
    ensures ScanIndices(form).None?
  {
    ScanIndicesConverts(form[..n]);
    var i :| 0 <= i < n && IsTextKey(form[..n][i].0) && KeyIndex(form[..n][i].0).None?;
    assert form[..n][i] == form[i];
    ScanIndicesConverts(form);
  }

  /** Every question whose text key the form carries, in the spelling the pages generate, is
      among the indices found. */
  lemma SentTextKeyFound(form: Form, idx: int)
    requires ScanIndices(form).Some?
    requires Get(form, TextKey(idx)).Some?
    ensures idx in ScanIndices(form).value
  {
    TextKeyIndex(idx);
    GetFinds(form, TextKey(idx));
    var i :| 0 <= i < |form| && form[i] == (TextKey(idx), Get(form, TextKey(idx)).value);
    ScanIndicesConverts(form);
  }

  /** `sorted(question_indices)`: the indices in strictly ascending order. */
  function SortedIndices(s: set<int>): (r: seq<int>)
    ensures |r| == |s|
    ensures forall x :: x in s <==> x in r
    ensures Increasing(r)
    decreases |s|
  {
    if s == {} then []
    else
      SetHasLeast(s);
      var m :| m in s && forall x :: x in s ==> m <= x;
      var rest := SortedIndices(s - {m});
      LeastFirst(s, m, rest);
      [m] + rest
  }

  lemma LeastFirst(s: set<int>, m: int, rest: seq<int>)
    requires m in s && forall x :: x in s ==> m <= x
    requires |rest| == |s - {m}| && (forall x :: x in s - {m} <==> x in rest) && Increasing(rest)
    ensures |[m] + rest| == |s|
    ensures forall x :: x in s <==> x in [m] + rest
    ensures Increasing([m] + rest)
  {
    forall i | 0 <= i < |rest| ensures m < rest[i] {
      assert rest[i] in rest;
      assert rest[i] in s - {m};
    }
    assert |s - {m}| == |s| - 1;
  }

  lemma NoMemberEmpty(s: set<int>)
    ensures (forall y :: y !in s) ==> s == {}
  {
    if forall y :: y !in s {
      assert forall y :: y in s <==> y in {};
    }
  }

  lemma LeastOfOne(s: set<int>, y: int)
    requires y in s && s - {y} == {}
    ensures forall x :: x in s ==> y <= x
  {
    forall x | x in s ensures y <= x {
      assert x in (s - {y}) + {y};
    }
  }

  lemma LeastOfMore(s: set<int>, y: int, m: int)
    requires y in s && m in s - {y} && forall x :: x in s - {y} ==> m <= x
    ensures var least := if y < m then y else m; least in s && forall x :: x in s ==> least <= x
  {
    forall x | x in s ensures (if y < m then y else m) <= x {
      assert x in (s - {y}) + {y};
    }
  }

  lemma {:induction false} SetHasLeast(s: set<int>)
    requires s != {}
    ensures exists m :: m in s && forall x :: x in s ==> m <= x
  {
    NoMemberEmpty(s);
    var y :| y in s;
    if s - {y} == {} {
      LeastOfOne(s, y);
    } else {
      SetHasLeast(s - {y});
      var m :| m in s - {y} && forall x :: x in s - {y} ==> m <= x;
      LeastOfMore(s, y, m);
    }
  }

  // ---------------------------------------------------------------- options of one question

  /** The stripped text of option `j` of question `idx` (blank when the key is missing). */
  function OptionText(form: Form, idx: int, j: nat): string {
    Field(form, OptionTextKey(idx, j))
  }

  /** `if request.form.get(...correct key...)`: a non-empty value was sent for the checkbox. */
  predicate IsChecked(form: Form, idx: int, j: nat) {
    Get(form, OptionCorrectKey(idx, j)).Some? && Get(form, OptionCorrectKey(idx, j)).value != []
  }

  /** The ascending list of the checked options among the first `n`. */
  function CheckedBelow(form: Form, idx: int, n: nat): (r: seq<nat>)
    ensures forall i :: 0 <= i < |r| ==> r[i] < n
    ensures forall i, k :: 0 <= i < k < |r| ==> r[i] < r[k]
  {
    if n == 0 then []
    else CheckedBelow(form, idx, n - 1) + (if IsChecked(form, idx, n - 1) then [n - 1] else [])
  }

  /** An option is listed as correct exactly when its checkbox was sent non-empty. */
  lemma {:induction false} CheckedBelowMembers(form: Form, idx: int, n: nat)
    ensures forall j :: 0 <= j < n ==> (IsChecked(form, idx, j) <==> j in CheckedBelow(form, idx, n))
  {
    if n > 0 {
      CheckedBelowMembers(form, idx, n - 1);
      var front := CheckedBelow(form, idx, n - 1);
      var tail := if IsChecked(form, idx, n - 1) then [n - 1] else [];
      assert CheckedBelow(form, idx, n) == front + tail;
      forall j | 0 <= j < n ensures IsChecked(form, idx, j) <==> j in front + tail {
        if j < n - 1 {
          assert j !in tail;
        } else {
          assert j !in front;
        }
      }
    }
  }

  /** What the `while True` loop of one question collects: the options up to the first blank
      one, and the checked indices among them. */
  predicate OptionsRun(form: Form, idx: int, options: seq<string>, correct: seq<nat>) {
    && NonBlankPrefix(form, idx, options)
    && OptionText(form, idx, |options|) == []
    && correct == CheckedBelow(form, idx, |options|)
  }

  /** `options` are the first options of question `idx`, none of them blank. */
  predicate NonBlankPrefix(form: Form, idx: int, options: seq<string>) {
    forall j {:trigger options[j]} {:trigger OptionText(form, idx, j)} ::
      0 <= j < |options| ==> options[j] == OptionText(form, idx, j) && options[j] != []
  }

  lemma ExtendPrefix(form: Form, idx: int, options: seq<string>, text: string)
    requires NonBlankPrefix(form, idx, options)
    requires text == OptionText(form, idx, |options|) && text != []
    ensures NonBlankPrefix(form, idx, options + [text])
  {
    var longer := options + [text];
    forall j | 0 <= j < |longer| ensures longer[j] == OptionText(form, idx, j) && longer[j] != [] {
      if j < |options| {
        assert longer[j] == options[j];
      }
    }
  }

  /** The run is determined by the form: the first blank option ends it. */
  lemma OptionsRunUnique(form: Form, idx: int, o1: seq<string>, c1: seq<nat>, o2: seq<string>, c2: seq<nat>)
    requires OptionsRun(form, idx, o1, c1) && OptionsRun(form, idx, o2, c2)
    ensures o1 == o2 && c1 == c2
  {
  }

  lemma OptionTextKeyInjective(idx: int, j: nat, k: nat)
    requires OptionTextKey(idx, j) == OptionTextKey(idx, k)
    ensures j == k
  {
    var p := QuestionsPrefix + DecimalString(idx) + "][options][";
    var a := DecimalString(j) + TextSuffix;
    var b := DecimalString(k) + TextSuffix;
    OptionTextKeySplit(idx, j);
    OptionTextKeySplit(idx, k);
    assert a == (p + a)[|p|..] == (p + b)[|p|..] == b;
    assert DecimalString(j) == a[..|a| - |TextSuffix|] == b[..|b| - |TextSuffix|] == DecimalString(k);
    DecimalInjective(j, k);
  }

  /** The key of option `j` is the fixed head for the question, then `j`, then the suffix. */
  lemma OptionTextKeySplit(idx: int, j: nat)
    ensures OptionTextKey(idx, j) == (QuestionsPrefix + DecimalString(idx) + "][options][") + (DecimalString(j) + TextSuffix)
  {
  }

  /** A non-blank option was sent. */
  lemma {:induction false} NonBlankSent(form: Form, key: string)
    requires Field(form, key) != []
    ensures Get(form, key).Some?
  {
    if form != [] && form[0].0 != key {
      NonBlankSent(form[1..], key);
    }
  }

  /** A form with `n` non-blank options for one question has at least `n` pairs, which is what
      bounds the `while True` loop. */
  lemma OptionsBounded(form: Form, idx: int, options: seq<string>)
    requires NonBlankPrefix(form, idx, options)
    ensures |options| <= |form|
  {
    var n := |options|;
    var keys := seq(n, j requires 0 <= j < n => OptionTextKey(idx, j));
    forall i, k | 0 <= i < k < n ensures keys[i] != keys[k] {
      if keys[i] == keys[k] {
        OptionTextKeyInjective(idx, i, k);
      }
    }
    var formKeys := set p | p in form :: p.0;
    forall i | 0 <= i < n ensures keys[i] in formKeys {
      assert OptionText(form, idx, i) != [] && keys[i] == OptionTextKey(idx, i);
      NonBlankSent(form, keys[i]);
      GetFinds(form, keys[i]);
      var p := (keys[i], Get(form, keys[i]).value);
      assert p in form;
    }
    Tables.DistinctWithin(keys, formKeys);
    FormKeysCard(form);
  }

  lemma {:induction false} FormKeysCard(form: Form)
    ensures |set p | p in form :: p.0| <= |form|
  {
    if form != [] {
      var front := form[..|form| - 1];
      FormKeysCard(front);
      assert (set p | p in form :: p.0) == (set p | p in front :: p.0) + {form[|form| - 1].0};
    }
  }

  /** The `while True` loop over `option_idx`. */
  method CollectOptions(form: Form, idx: int) returns (options: seq<string>, correct: seq<nat>)
    ensures OptionsRun(form, idx, options, correct)
  {
    options, correct := [], [];
    var j: nat := 0;
    while true
      invariant j == |options| && j <= |form|
      invariant NonBlankPrefix(form, idx, options)
      invariant correct == CheckedBelow(form, idx, j)
      decreases |form| - j
    {
      var text := OptionText(form, idx, j);
      if text == [] {
        break;
      }
      ExtendPrefix(form, idx, options, text);
      options := options + [text];
      if IsChecked(form, idx, j) {
        correct := correct + [j];
      }
      OptionsBounded(form, idx, options);
      j := j + 1;
    }
  }

  // ---------------------------------------------------------------- question drafts

  /** The row `create_test` and `edit_test` add for one kept question, before it is encoded. */
  datatype Draft = Draft(text: string, qtype: string, options: seq<string>, correct: seq<nat>, orderIndex: int)

  /** The stripped text of question `idx`. */
  function QuestionText(form: Form, idx: int): string {
    Field(form, TextKey(idx))
  }

  /** The draft for question `idx`: its non-blank text, its type as sent (default `single`), its
      options run, and `order_index` equal to the form index. */
  predicate DraftFor(form: Form, idx: int, d: Draft) {
    && d.text == QuestionText(form, idx) && d.text != []
    && d.qtype == GetOr(form, TypeKey(idx), "single")
    && d.orderIndex == idx
    && OptionsRun(form, idx, d.options, d.correct)
  }

  /** The question indices whose stripped text is not blank. */
  function HasText(form: Form): int -> bool {
    idx => QuestionText(form, idx) != []
  }

  predicate Increasing(xs: seq<int>) {
    forall i, j :: 0 <= i < j < |xs| ==> xs[i] < xs[j]
  }

  /** The indices, in the given order, that `keep` accepts (`if not question_text: continue`). */
  function Kept(indices: seq<int>, keep: int -> bool): (r: seq<int>)
    ensures |r| <= |indices|
    ensures forall i :: 0 <= i < |r| ==> r[i] in indices && keep(r[i])
    ensures forall i :: 0 <= i < |indices| && keep(indices[i]) ==> indices[i] in r
    ensures Increasing(indices) ==> Increasing(r)
  {
    if indices == [] then []
    else
      var front := indices[..|indices| - 1];
      var last := indices[|indices| - 1];
      var rest := Kept(front, keep);
      assert forall i :: 0 <= i < |rest| ==> rest[i] in indices;
      assert Increasing(indices) ==> forall i :: 0 <= i < |rest| ==> rest[i] < last by {
        if Increasing(indices) {
          forall i | 0 <= i < |rest| ensures rest[i] < last {
            var j :| 0 <= j < |front| && front[j] == rest[i];
          }
        }
      }
      rest + (if keep(last) then [last] else [])
  }

  /** `drafts[k]` is the draft of question `kept[k]`, for every k. */
  predicate DraftsFor(form: Form, kept: seq<int>, drafts: seq<Draft>) {
    |drafts| == |kept| && forall k :: 0 <= k < |drafts| ==> DraftFor(form, kept[k], drafts[k])
  }

  lemma KeptStep(indices: seq<int>, i: nat, keep: int -> bool)
    requires i < |indices|
    ensures Kept(indices[..i + 1], keep) == Kept(indices[..i], keep) + (if keep(indices[i]) then [indices[i]] else [])
  {
    assert indices[..i + 1][..i] == indices[..i];
  }

  lemma DraftsStep(form: Form, kept: seq<int>, drafts: seq<Draft>, idx: int, d: Draft)
    requires DraftsFor(form, kept, drafts) && DraftFor(form, idx, d)
    ensures DraftsFor(form, kept + [idx], drafts + [d])
  {
    var ks, ds := kept + [idx], drafts + [d];
    forall k | 0 <= k < |ds| ensures DraftFor(form, ks[k], ds[k]) {
      if k < |drafts| {
        assert ks[k] == kept[k] && ds[k] == drafts[k];
      }
    }
  }

  /** The loop `for idx in sorted(question_indices)`, minus the database writes. */
  method BuildDrafts(form: Form, indices: seq<int>) returns (drafts: seq<Draft>)
    ensures DraftsFor(form, Kept(indices, HasText(form)), drafts)
  {
    drafts := [];
    var i := 0;
    while i < |indices|
      invariant 0 <= i <= |indices|
      invariant DraftsFor(form, Kept(indices[..i], HasText(form)), drafts)
    {
      var idx := indices[i];
      KeptStep(indices, i, HasText(form));
      var text := QuestionText(form, idx);
      var qtype := GetOr(form, TypeKey(idx), "single");
      if text != [] {
        var options, correct := CollectOptions(form, idx);
        DraftsStep(form, Kept(indices[..i], HasText(form)), drafts, idx, Draft(text, qtype, options, correct, idx));
        drafts := drafts + [Draft(text, qtype, options, correct, idx)];
      }
      i := i + 1;
    }
    assert indices[..|indices|] == indices;
  }

  /** The drafts a form yields: one per kept question, in ascending index order. */
  predicate FormDrafts(form: Form, drafts: seq<Draft>)
    requires ScanIndices(form).Some?
  {
    DraftsFor(form, Kept(SortedIndices(ScanIndices(form).value), HasText(form)), drafts)
  }

  /** A form determines its drafts, and they come with distinct ascending `order_index` values,
      non-blank texts, and checked indices that point into their options in ascending order. */
  lemma FormDraftsShape(form: Form, d1: seq<Draft>, d2: seq<Draft>)
    requires ScanIndices(form).Some?
    requires FormDrafts(form, d1) && FormDrafts(form, d2)
    ensures d1 == d2
    ensures forall i, j :: 0 <= i < j < |d1| ==> d1[i].orderIndex < d1[j].orderIndex
    ensures forall i :: 0 <= i < |d1| ==> d1[i].text != [] && IndexSent(form, d1[i].orderIndex)
    ensures forall i :: 0 <= i < |d1| ==>
              forall k :: 0 <= k < |d1[i].correct| ==> d1[i].correct[k] < |d1[i].options|
  {
    var kept := Kept(SortedIndices(ScanIndices(form).value), HasText(form));
    forall i | 0 <= i < |d1| ensures d1[i] == d2[i] {
      OptionsRunUnique(form, kept[i], d1[i].options, d1[i].correct, d2[i].options, d2[i].correct);
    }
    forall i | 0 <= i < |d1| ensures IndexSent(form, d1[i].orderIndex) {
      assert kept[i] in SortedIndices(ScanIndices(form).value);
    }
  }

  /** `json.dumps(options) if options else None`. */
  function OptionsColumn(c: Codec, options: seq<string>): (r: Option<string>)
    ensures r.None? <==> options == []
  {
    if options == [] then None else Some(c.dumps(JList(seq(|options|, i requires 0 <= i < |options| => JStr(options[i])))))
  }

  /** `json.dumps(correct_answers) if correct_answers else None`. */
  function CorrectColumn(c: Codec, correct: seq<nat>): (r: Option<string>)
    ensures r.None? <==> correct == []
  {
    if correct == [] then None else Some(c.dumps(JList(seq(|correct|, i requires 0 <= i < |correct| => JInt(correct[i])))))
  }
}
