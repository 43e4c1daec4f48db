/** The input validators of `backend/utils/validation.py`. Each returns the error message it
    reports, or `None` when the input is accepted. */
module Validation {
  import opened Wrappers
  import opened JsonValues
  import opened PyText

  predicate IsAsciiLetter(c: char) {
    ('a' <= c <= 'z') || ('A' <= c <= 'Z')
  }

  predicate IsAsciiAlnum(c: char) {
    IsAsciiLetter(c) || IsDigit(c)
  }

  /** `[a-zA-Z0-9._-]`, the characters of the part before `@`. */
  predicate LocalChar(c: char) {
    IsAsciiAlnum(c) || c == '.' || c == '_' || c == '-'
  }

  /** `[a-zA-Z0-9.-]`, the characters of the domain. */
  predicate DomainChar(c: char) {
    IsAsciiAlnum(c) || c == '.' || c == '-'
  }

  /** `[a-zA-Z0-9][a-zA-Z0-9._-]*` */
  predicate LocalPart(s: string) {
    |s| > 0 && IsAsciiAlnum(s[0]) && forall i :: 0 <= i < |s| ==> LocalChar(s[i])
  }

  /** `[a-zA-Z0-9][a-zA-Z0-9.-]*` */
  predicate DomainPart(s: string) {
    |s| > 0 && IsAsciiAlnum(s[0]) && forall i :: 0 <= i < |s| ==> DomainChar(s[i])
  }

  /** `[a-zA-Z]{2,}` */
  predicate TopLevel(s: string) {
    |s| >= 2 && forall i :: 0 <= i < |s| ==> IsAsciiLetter(s[i])
  }

  /** The whole of `e` matches `^[a-zA-Z0-9][a-zA-Z0-9._-]*@[a-zA-Z0-9][a-zA-Z0-9.-]*\.[a-zA-Z]{2,}$`:
      it splits at some `@` and some later `.` into the three parts. */
  ghost predicate EmailPattern(e: string) {
    exists at, dot :: 0 <= at < dot < |e| && e[at] == '@' && e[dot] == '.'
                      && LocalPart(e[..at]) && DomainPart(e[at + 1..dot]) && TopLevel(e[dot + 1..])
  }

  /** The first position of `c` in `s`. */
  function FirstIndex(s: string, c: char): (r: Option<nat>)
    ensures r.Some? ==> r.value < |s| && s[r.value] == c && forall i :: 0 <= i < r.value ==> s[i] != c
    ensures r.None? ==> forall i :: 0 <= i < |s| ==> s[i] != c
  {
    if s == [] then None
    else if s[0] == c then Some(0)
    else match FirstIndex(s[1..], c) case Some(i) => Some(i + 1) case None => None
  }

  /** The last position of `c` in `s`. */
  function LastIndex(s: string, c: char): (r: Option<nat>)
    ensures r.Some? ==> r.value < |s| && s[r.value] == c && forall i :: r.value < i < |s| ==> s[i] != c
    ensures r.None? ==> forall i :: 0 <= i < |s| ==> s[i] != c
  {
    if s == [] then None
    else if s[|s| - 1] == c then Some(|s| - 1)
    else LastIndex(s[..|s| - 1], c)
  }

  /** The regular expression, decided by splitting at the only possible `@` (no other part may
      hold one) and at the last `.` (the top-level part holds none). */
  predicate MatchesEmail(e: string) {
    match FirstIndex(e, '@')
    case None => false
    case Some(at) =>
      var rest := e[at + 1..];
      && LocalPart(e[..at])
      && |rest| > 0 && IsAsciiAlnum(rest[0]) && (forall i :: 0 <= i < |rest| ==> DomainChar(rest[i]))
      && match LastIndex(rest, '.')
         case None => false
         case Some(dot) => TopLevel(rest[dot + 1..])
  }

  lemma MatchesEmailSound(e: string)
    requires MatchesEmail(e)
    ensures EmailPattern(e)
  {
    var at := FirstIndex(e, '@').value;
    var rest := e[at + 1..];
    var d := LastIndex(rest, '.').value;
    assert d > 0;
    var dot := at + 1 + d;
    assert e[at + 1..dot] == rest[..d];
    assert e[dot + 1..] == rest[d + 1..];
    assert DomainPart(e[at + 1..dot]);
  }

  lemma MatchesEmailComplete(e: string, at: nat, dot: nat)
    requires 0 <= at < dot < |e| && e[at] == '@' && e[dot] == '.'
    requires LocalPart(e[..at]) && DomainPart(e[at + 1..dot]) && TopLevel(e[dot + 1..])
    ensures MatchesEmail(e)
  {
    FirstAt(e, at);
    var rest := e[at + 1..];
    var d := dot - at - 1;
    assert rest[..d] == e[at + 1..dot];
    assert rest[d + 1..] == e[dot + 1..];
    DomainRest(rest, d);
    LastDot(rest, d);
  }

  /** The `@` that ends a local part is the first one. */
  lemma FirstAt(e: string, at: nat)
    requires at < |e| && e[at] == '@' && LocalPart(e[..at])
    ensures FirstIndex(e, '@') == Some(at)
  {
    forall i | 0 <= i < at ensures e[i] != '@' {
      assert LocalChar(e[..at][i]);
    }
  }

  /** A domain, a dot and a top-level part are all domain characters, the first alphanumeric. */
  lemma DomainRest(rest: string, d: nat)
    requires d < |rest| && rest[d] == '.' && DomainPart(rest[..d]) && TopLevel(rest[d + 1..])
    ensures IsAsciiAlnum(rest[0]) && forall i :: 0 <= i < |rest| ==> DomainChar(rest[i])
  {
    forall i | 0 <= i < |rest| ensures DomainChar(rest[i]) {
      if i < d {
        assert rest[i] == rest[..d][i];
      } else if i > d {
        assert rest[i] == rest[d + 1..][i - d - 1];
      }
    }
    assert rest[0] == rest[..d][0];
  }

  /** The dot before a top-level part is the last one. */
  lemma LastDot(rest: string, d: nat)
    requires d < |rest| && rest[d] == '.' && TopLevel(rest[d + 1..])
    ensures LastIndex(rest, '.') == Some(d)
  {
    forall i | d < i < |rest| ensures rest[i] != '.' {
      assert IsAsciiLetter(rest[d + 1..][i - d - 1]);
    }
  }

  /** `re.match` with this pattern succeeds exactly when the email has the three parts. */
  lemma MatchesEmailIff(e: string)
    ensures MatchesEmail(e) <==> EmailPattern(e)
  {
    if MatchesEmail(e) {
      MatchesEmailSound(e);
    }
    if EmailPattern(e) {
      var at, dot :| 0 <= at < dot < |e| && e[at] == '@' && e[dot] == '.'
                     && LocalPart(e[..at]) && DomainPart(e[at + 1..dot]) && TopLevel(e[dot + 1..]);
      MatchesEmailComplete(e, at, dot);
    }
  }

  const EmailRequired := "Email обязателен"
  const EmailTooLong := "Email слишком длинный (максимум 120 символов)"
  const EmailMalformed := "Неверный формат email"

  /** `validate_email`: present and a string, at most 120 characters once stripped, and of the
      form `local@domain.tld`. */
  function ValidateEmail(email: Json): (err: Option<string>)
    ensures err.None? <==> email.JStr? && |Strip(email.s)| <= 120 && EmailPattern(Strip(email.s))
    ensures !Truthy(email) || !email.JStr? ==> err == Some(EmailRequired)
    ensures email.JStr? && email.s != [] && |Strip(email.s)| > 120 ==> err == Some(EmailTooLong)
  {
    if !Truthy(email) || !email.JStr? then Some(EmailRequired)
    else
      var e := Strip(email.s);
      MatchesEmailIff(e);
      if |e| > 120 then Some(EmailTooLong)
      else if !MatchesEmail(e) then Some(EmailMalformed)
      else None
  }

  /** A string of this form holds exactly one `@`. */
  lemma EmailPatternOneAt(e: string)
    requires EmailPattern(e)
    ensures exists at :: 0 <= at < |e| && e[at] == '@' && forall i :: 0 <= i < |e| && e[i] == '@' ==> i == at
  {
    var at, dot :| 0 <= at < dot < |e| && e[at] == '@' && e[dot] == '.'
                   && LocalPart(e[..at]) && DomainPart(e[at + 1..dot]) && TopLevel(e[dot + 1..]);
    forall i | 0 <= i < |e| && i != at ensures e[i] != '@' {
      if i < at {
        assert LocalChar(e[..at][i]);
      } else if at < i < dot {
        assert DomainChar(e[at + 1..dot][i - at - 1]);
      } else if dot < i {
        assert IsAsciiLetter(e[dot + 1..][i - dot - 1]);
      }
    }
  }

  lemma ExampleEmailMatches(e: string)
    requires e == "Bob@x.com"
    ensures MatchesEmail(e)
  {
    assert e[..3] == "Bob" && e[4..5] == "x" && e[6..] == "com";
    MatchesEmailComplete(e, 3, 5);
  }

  lemma ExampleEmailParts(e: string)
    requires e == "Bob@x.com"
    ensures |Strip(e)| <= 120 && EmailPattern(Strip(e))
  {
    StrippedAsIs(e);
    ExampleEmailMatches(e);
    MatchesEmailSound(Strip(e));
  }

  /** "Bob@x.com" is accepted as it is typed. */
  lemma ExampleEmailAccepted(e: string)
    requires e == "Bob@x.com"
    ensures ValidateEmail(JStr(e)).None?
  {
    ExampleEmailParts(e);
    AcceptedStripped(JStr(e));
  }

  /** A string whose stripped form is short enough and of the right form is accepted. */
  lemma AcceptedStripped(email: Json)
    requires email.JStr? && |Strip(email.s)| <= 120 && EmailPattern(Strip(email.s))
    ensures ValidateEmail(email).None?
  {
  }

  predicate HasDigit(s: string) {
    exists i :: 0 <= i < |s| && IsDigit(s[i])
  }

  predicate HasUpper(s: string) {
    exists i :: 0 <= i < |s| && 'A' <= s[i] <= 'Z'
  }

  predicate HasLower(s: string) {
    exists i :: 0 <= i < |s| && 'a' <= s[i] <= 'z'
  }

  const PasswordRequired := "Пароль обязателен"
  const PasswordTooShort := "Пароль должен быть минимум 8 символов"
  const PasswordTooLong := "Пароль слишком длинный (максимум 128 символов)"
  const PasswordNoDigit := "Пароль должен содержать хотя бы одну цифру"
  const PasswordNoUpper := "Пароль должен содержать хотя бы одну заглавную букву"
  const PasswordNoLower := "Пароль должен содержать хотя бы одну строчную букву"

  /** A password the server accepts. */
  predicate StrongPassword(s: string) {
    8 <= |s| <= 128 && HasDigit(s) && HasUpper(s) && HasLower(s)
  }

  /** `validate_password`: the checks in the order the source makes them; the first that fails
      names the error. */
  function ValidatePassword(password: Json): (err: Option<string>)
    ensures err.None? <==> password.JStr? && StrongPassword(password.s)
    ensures !password.JStr? || password.s == [] ==> err == Some(PasswordRequired)
    ensures password.JStr? && 0 < |password.s| < 8 ==> err == Some(PasswordTooShort)
    ensures password.JStr? && |password.s| > 128 ==> err == Some(PasswordTooLong)
    ensures password.JStr? && 8 <= |password.s| <= 128 && !HasDigit(password.s) ==> err == Some(PasswordNoDigit)
  {
    if !Truthy(password) || !password.JStr? then Some(PasswordRequired)
    else
      var p := password.s;
      if |p| < 8 then Some(PasswordTooShort)
      else if |p| > 128 then Some(PasswordTooLong)
      else if !HasDigit(p) then Some(PasswordNoDigit)
      else if !HasUpper(p) then Some(PasswordNoUpper)
      else if !HasLower(p) then Some(PasswordNoLower)
      else None
  }

  const QuestionTypes: seq<string> := ["single", "multiple", "text"]

  /** `validate_question_type`: one of the three known types. */
  function ValidateQuestionType(qtype: Json): (err: Option<string>)
    ensures err.None? <==> qtype.JStr? && qtype.s in QuestionTypes
    ensures !Truthy(qtype) ==> err == Some("Тип вопроса обязателен")
  {
    if !Truthy(qtype) then Some("Тип вопроса обязателен")
    else if !(qtype.JStr? && qtype.s in QuestionTypes) then
      Some("Неверный тип вопроса. Разрешены: single, multiple, text")
    else None
  }

  /** What `validate_question_options` does: accept, reject with a message, or raise (`int()` of a
      list or an object raises `TypeError`, which it does not catch). */
  datatype OptionsCheck = Accepted | Rejected(message: string) | Raised

  const OptionsRequired := "Варианты ответов обязательны для вопросов с выбором"
  const TooFewOptions := "Должно быть минимум 2 варианта ответа"
  const AnswerOutOfRange := "Правильный ответ вне диапазона вариантов"
  const AnswerNotIndex := "Правильный ответ должен быть номером варианта"

  /** `validate_question_options`: a `text` question needs nothing; any other needs a list of at
      least two options; a truthy correct answer of a `single` question must name an option. */
  function ValidateQuestionOptions(qtype: Json, options: Json, correct: Json): (r: OptionsCheck)
    ensures qtype == JStr("text") ==> r == Accepted
    ensures qtype != JStr("text") && !(options.JList? && |options.items| >= 2) ==> r.Rejected?
    ensures r.Raised? <==> qtype == JStr("single") && options.JList? && |options.items| >= 2
                           && Truthy(correct) && PyInt(correct).TypeError?
    // a single-choice question is accepted only with a usable index, or no correct answer at all
    ensures qtype == JStr("single") && r == Accepted ==>
              |options.items| >= 2
              && (!Truthy(correct) || (PyInt(correct).Converted? && 0 <= PyInt(correct).value < |options.items|))
    ensures qtype != JStr("text") && qtype != JStr("single") ==>
              (r == Accepted <==> options.JList? && |options.items| >= 2)
  {
    if qtype == JStr("text") then Accepted
    else if !Truthy(options) || !options.JList? then Rejected(OptionsRequired)
    else if |options.items| < 2 then Rejected(TooFewOptions)
    else if Truthy(correct) && qtype == JStr("single") then
      match PyInt(correct)
      case Converted(n) => if n < 0 || n >= |options.items| then Rejected(AnswerOutOfRange) else Accepted
      case ValueError => Rejected(AnswerNotIndex)
      case TypeError => Raised
    else Accepted
  }
}
