# sky_test quiz application: a Dafny model of its grading, attempt and authoring core

This project models the core of the sky_test Flask quiz application in Dafny:

- **Tests, questions, attempts and answers.** These are the SQLAlchemy models. They live in a store made of one map per table. A `Store` class has a method per session operation (add a row, update a row, delete a row with its cascade). Its invariant holds the foreign keys, the unique `(attempt_id, question_id)` answer constraint, the unique `link_token` and `users.email` columns, and the rule that an attempt has a score exactly when it is finished.
- **`check_answer` and `calculate_score`.** These are the three-valued grader and the percentage over the test's question count. The attempt lifecycle built on them is `start_attempt`, the upserting `submit_answer`, the one-shot `finish_attempt` and `get_attempt_results`.
- **The services.** These are the authoring service (ownership checks, partial updates, publishing, canonicalising a correct answer), the validators, the user registry (registration, login, profile update) and the statistics.
- **The server-rendered pages.** Test creation and editing parse the flat `questions[N][options][M][text]` form with loops. `take_test` has its own grading loop and a truncated integer score. `test_result` has its access check and its `correct_count`.
- **The browser helpers.** These are percentage, grade, initials, and the email, password and name checks.

### How values are represented

- JSON columns are `Option<string>`. Decoding and encoding go through an opaque `Codec` record (`loads`, `dumps`, `str`). The predicate `Lawful(c)` states the laws the model relies on: `loads(dumps(j)) == Some(j)`, `dumps` never gives `""`, an integer is dumped as its decimal spelling, and `str` of a string is the string itself.
- Scores are exact reals. `round(x, 2)` is rounding half to even at two decimals, `int(x)` truncates, and `Math.round` rounds half up.
- Clocks, uuids, `secrets` tokens and password hashes are parameters.
- Where the source is wrong (see "## Findings"), the operation is modelled as written, and a corrected member stands beside it with the intended property proved.

## Model

| member | source | states |
|---|---|---|
| Grading.IsCorrectColumn | backend/models/answer.py:22 | the `is_correct` column is True exactly for a right answer and null exactly for an ungraded one |
| Grading.ChosenIndex | backend/services/attempt_service.py:88-100 | an int answer names itself; a non-string answer names an index exactly when it is a number |
| Grading.SortedEqual | backend/services/attempt_service.py:123 | `sorted(a) == sorted(b)` raises exactly when a list cannot be ordered (numbers, strings, number lists and string lists can); equal sorted lists have equal length; two lists of number lists compare equal exactly when they hold the same lists as often |
| Grading.GradeSingle | backend/services/attempt_service.py:85-107 | single-choice grading is never "ungraded", and an answer naming no integer is wrong |
| Grading.GradeMultiple | backend/services/attempt_service.py:109-123 | raising needs a stored list and a submitted list (or string); two orderable lists, including lists of lists, always give a verdict; any other submitted value is wrong |
| Grading.GradeText | backend/services/attempt_service.py:125-126 | a text answer is right exactly when both sides, rendered, stripped and lower-cased, are equal |
| Grading.CheckAnswer | backend/services/attempt_service.py:74-128 | a missing, empty or undecodable correct answer gives "ungraded" for any answer; of the modelled values only `multiple` can raise; unknown question types are ungraded |
| Grading.CountCorrect | backend/services/attempt_service.py:169 | the count of True answers is at most the number of answers, and 0 exactly when none is True |
| Grading.CalculateScore | backend/services/attempt_service.py:151-172 | 0 for a test without questions; otherwise the rounded percentage of True answers over the question count; within 0..100 when there are no more answers than questions |
| GradingProperties.SingleGradedByIndex | backend/services/attempt_service.py:85-107 | with `[k]` stored, the answer `i` or its decimal string is right exactly when `i == k` |
| GradingProperties.SingleBareCorrectAnswer | backend/services/attempt_service.py:102-107 | a bare stored `k` grades every answer as the list `[k]` does |
| GradingProperties.SingleNeverUngraded | backend/services/attempt_service.py:85-107 | a single-choice question with a decodable correct answer always gives True or False |
| GradingProperties.IntValuesSameMultiset | backend/services/attempt_service.py:123 | two lists of ints have equal numeric multisets exactly when they have equal multisets |
| GradingProperties.MultipleGradedByMultiset | backend/services/attempt_service.py:109-123 | a list of indices is right exactly when it is a permutation of the stored list, duplicates counting |
| GradingProperties.MultipleGradedBySorting | backend/services/attempt_service.py:109-123 | a stored list grades a submitted list by whether the two sort equal, whatever their elements |
| GradingProperties.ListsOfListsOrderIrrelevant | backend/services/attempt_service.py:123 | a stored list of two number lists is matched by the same two lists in the other order |
| GradingProperties.SameIntsSameMultiset | backend/services/attempt_service.py:123 | JSON int lists have equal multisets exactly when their ints do |
| GradingProperties.MultipleOrderIrrelevant | backend/services/attempt_service.py:123 | any reordering of the stored list is right; adding or dropping an index is wrong |
| GradingProperties.TextGradedByText | backend/services/attempt_service.py:125-126 | a stored JSON string is graded against the string itself |
| GradingProperties.PaddingIgnored | backend/services/attempt_service.py:126 | whitespace around a text answer does not change its verdict |
| GradingProperties.TextIgnoresSurroundingSpace | backend/services/attempt_service.py:125-126 | a padded text answer is right exactly when its lower-cased core equals the stripped, lower-cased stored text |
| GradingProperties.OnlyCorrectCounts | backend/services/attempt_service.py:167-169 | False and None answers weigh the same in the count |
| GradingProperties.ScoreExample | backend/services/attempt_service.py:151-172 | two right answers out of four questions (one wrong, one ungraded) score 50.0 |
| AttemptService.Verdicts | backend/services/attempt_service.py:165-169 | the `is_correct` column of each answer, in order |
| AttemptService.AttemptScore | backend/services/attempt_service.py:151-172 | 0 for an unknown attempt, and 0 for a test without questions; a non-negative score with two decimals; otherwise `CalculateScore` over the test's questions and the attempt's answers |
| AttemptService.AttemptScoreBounded | backend/services/attempt_service.py:151-172 | in a consistent store every computed score is at most 100 |
| AttemptService.OpenAttemptError | backend/services/attempt_service.py:30-38 | no error exactly when the attempt exists, belongs to the user and is not finished |
| AttemptService.SubmitError | backend/services/attempt_service.py:30-42 | no error exactly when the attempt is open to the user and the question belongs to its test; the attempt's errors come first |
| AttemptService.SubmittedHoldsLatest | backend/services/attempt_service.py:44-63 | after a submission exactly one answer row for (attempt, question) holds the latest payload and verdict; every other row is unchanged |
| AttemptService.SubmittedKeys | backend/services/attempt_service.py:44-63 | a submission keeps the table keys valid |
| AttemptService.SubmittedFindsTarget | backend/services/attempt_service.py:45-48 | after a submission the (attempt, question) lookup finds the row that was written |
| AttemptService.ResubmitAddsNoRow | backend/services/attempt_service.py:50-54 | a second submission adds no row and leaves the store as if only the second had been made |
| AttemptService.Finished | backend/services/attempt_service.py:141-144 | finishing sets `finished_at` and stores the computed score |
| AttemptService.FinishIsFinal | backend/services/attempt_service.py:37-38 | once finished, both finishing again and submitting fail with 'Attempt already finished' |
| AttemptService.StartAttempt | backend/services/attempt_service.py:13-26 | 'Test not found' with nothing changed, or a new unfinished attempt under the next id and its dict |
| AttemptService.SubmitAnswer | backend/services/attempt_service.py:28-72 | a failed check returns its message and changes nothing; otherwise the answer is upserted with its payload and verdict, or a raising grader rolls back |
| AttemptService.FinishAttempt | backend/services/attempt_service.py:130-149 | a failed check returns its message and changes nothing; otherwise the score and the finish time are stored together and returned |
| AttemptService.AttemptResults | backend/services/attempt_service.py:174-182 | 'Attempt not found', 'Access denied', or the owner's attempt, finished or not, with its own fields and every answer recorded for it as `to_dict()`, in id order |
| TestService.Touched | backend/models/test.py:21 | `updated_at` moves to now exactly when the row changed |
| TestService.OwnerError | backend/services/test_service.py:34-38 | no error exactly when the test exists and the user owns it; a missing test is 'Test not found' |
| TestService.CreateTest | backend/services/test_service.py:11-19 | a new unpublished test without a token under the next id, nothing else changed |
| TestService.UserTestIds | backend/services/test_service.py:22 | exactly the ids of the user's tests, ascending |
| TestService.GetUserTests | backend/services/test_service.py:21-23 | the window from `skip` of at most `limit` of the user's test ids, each test as `to_dict()` without questions |
| TestService.UserTestsInOrder | backend/services/test_service.py:21-23 | the page holds only that user's tests, in ascending id order, and a short first page lists them all |
| TestService.GetTest | backend/services/test_service.py:25-31 | 'Test not found'; success exactly when no user (or user 0) is given or the user owns it; the dict carries the title, description, attempt count and every question of the test, reordered by `order_index`, without correct answers |
| TestService.PatchTest | backend/services/test_service.py:40-43 | only the supplied title and description change |
| TestService.PatchTestIdempotent | backend/services/test_service.py:40-43 | an empty patch changes nothing, and applying a patch twice is applying it once |
| TestService.UpdateTest | backend/services/test_service.py:33-46 | ownership errors change nothing; otherwise only the patched fields (and `updated_at`) change |
| TestService.DeleteTest | backend/services/test_service.py:48-57 | ownership errors change nothing; otherwise the test goes with its questions, attempts and their answers |
| TestService.PublishTest | backend/services/test_service.py:59-73 | ownership errors or no questions change nothing; success publishes the test with the new token, and a fresh token always succeeds |
| TestService.GetTestByLink | backend/services/test_service.py:75-81 | an unknown token is 'Test not found', an unpublished test 'Test is not published'; success is the token holder's published test with every one of its questions in `order_index` order, none showing its correct answer |
| TestService.LinkFindsHolder | backend/models/test.py:19 | the unique token finds its test, and the link works exactly when that test is published |
| TestService.CanonicalCorrectAnswer | backend/services/test_service.py:99-117 | a number becomes `[int(x)]`, a string becomes null for `single`; `multiple` accepts only a list; other types keep the value |
| TestService.CanonicalCorrectAnswerFixed | backend/services/test_service.py:99-117 | as written, except that a `single` index sent as a string is stored as `[int(s)]` |
| TestService.StringIndexNeverGraded | backend/services/test_service.py:101-110 | a `single` question created with correct answer "1" is stored with none and is never graded |
| TestService.CreatedSingleGradesByIndex | backend/services/test_service.py:101-110 | with the fix, index `k` sent as a number or as a string grades answer `i` right exactly when `i == k` |
| TestService.GradingPropertiesBridge | backend/services/test_service.py:105 | a stored `[k]` grades answer `i` right exactly when `i == k` |
| TestService.ValidatedIndexDropped | backend/utils/validation.py:111-118 | the options validator accepts the string index "1", and creation then drops it |
| TestService.ValidatedIndexStored | backend/utils/validation.py:111-118 | with the fix, every index the validator accepts is stored as `[n]` with `n` in range |
| TestService.NewQuestionFields | backend/services/test_service.py:90-117 | as written: a blank stripped text is 'question_text is required'; success needs a type and a canonical correct answer, which is stored, null for a `single` index sent as a string |
| TestService.NewQuestionFieldsFixed | backend/services/test_service.py:90-117 | the corrected fields: the same outcome, with a string `single` index stored as a one-element list, and nothing else changed |
| TestService.StringIndexFields | backend/services/test_service.py:101-110 | for `single` with the index sent as its decimal string, the source stores null and the corrected fields store `[k]` |
| TestService.CreateQuestion | backend/services/test_service.py:83-133 | ownership or field errors change nothing; otherwise one new question row with the text, options and the correct answer as written, returned with its correct answer |
| TestService.PatchQuestion | backend/services/test_service.py:144-153 | a supplied text, type or order index is written as given, supplied options and correct answer are stored dumped; fields absent from the patch keep their value; id and test never change |
| TestService.QuestionError | backend/services/test_service.py:136-142 | no error exactly when the user owns the test and the question belongs to it |
| TestService.UpdateQuestion | backend/services/test_service.py:135-156 | errors change nothing; otherwise only the patched fields of that question change |
| TestService.DeleteQuestion | backend/services/test_service.py:158-169 | errors change nothing; otherwise the question goes with its answers |
| Validation.FirstIndex | backend/utils/validation.py:26 | the first position of a character, or none |
| Validation.LastIndex | backend/utils/validation.py:26 | the last position of a character, or none |
| Validation.MatchesEmailIff | backend/utils/validation.py:26-28 | the split at the first `@` and last `.` decides the pattern exactly |
| Validation.ValidateEmail | backend/utils/validation.py:7-31 | accepted exactly when a string whose stripped form has at most 120 characters and matches the pattern; falsy or non-string input is 'Email обязателен' |
| Validation.EmailPatternOneAt | backend/utils/validation.py:26 | an accepted address has exactly one `@` |
| Validation.ExampleEmailAccepted | backend/utils/validation.py:7-31 | "Bob@x.com" is accepted |
| Validation.ValidatePassword | backend/utils/validation.py:34-65 | accepted exactly when a string of 8 to 128 characters with a digit, an upper- and a lower-case ASCII letter; the messages follow the order of the checks |
| Validation.ValidateQuestionType | backend/utils/validation.py:68-86 | accepted exactly for `single`, `multiple` and `text` |
| Validation.ValidateQuestionOptions | backend/utils/validation.py:89-120 | `text` is always accepted; other types need a list of 2 or more options; a truthy `single` index must convert and be in range; `multiple` indices are not checked |
| Numeric.Trunc | backend/routes/views.py:496 | `int(x)` rounds toward zero |
| Numeric.RoundHalfEven | backend/services/attempt_service.py:172 | the nearest integer, within one half |
| Numeric.Round2 | backend/services/attempt_service.py:172 | `round(x, 2)` is within 0.005 of x, has two decimals and keeps 0..100 |
| Numeric.Round2Fixes | backend/services/stats_service.py:37 | rounding a two-decimal value leaves it unchanged |
| Numeric.Round2Monotone | backend/services/stats_service.py:37 | rounding to two decimals is monotone |
| Numeric.JsRound | frontend/js/utils.js:178 | `Math.round` is within one half, ties upward |
| PyText.Strip | backend/services/auth_service.py:24 | `strip()` leaves no whitespace at either end |
| PyText.StripPadded | backend/services/auth_service.py:37 | stripping removes exactly the surrounding whitespace |
| PyText.StripIdempotent | backend/services/auth_service.py:38 | stripping twice is stripping once |
| PyText.ParseDecimal | backend/routes/views.py:480 | `int(str(n)) == n` |
| PyText.DecimalInjective | backend/routes/views.py:448 | different ids give different decimal spellings |
| JsonValues.ObjectsCompareValues | backend/services/attempt_service.py:123 | Python `==` on decoded objects compares values with `==`: `{"a": 1} == {"a": 1.0}`, and different keys differ |
| JsonValues.PyInt | backend/services/attempt_service.py:93-98 | `int(v)` converts numbers, converts strings exactly when they parse, and raises `TypeError` on anything else |
| Models.QuestionToDict | backend/models/question.py:25-46 | the four fixed fields; options only when stored, `[]` if undecodable; the correct answer only on request and when stored, raw text if undecodable |
| Models.AnswerToDict | backend/models/answer.py:24-37 | the three fixed fields; the user answer only when stored, raw text if undecodable |
| Models.AttemptToDict | backend/models/attempt.py:25-38 | the fixed fields, and every answer, serialised, exactly when asked for |
| Models.InsertByIndex | backend/models/test.py:44 | inserting into a list ordered by `order_index` keeps it ordered and adds exactly that question |
| Models.SortByIndex | backend/models/test.py:44 | a permutation ordered by `order_index` |
| Models.SortByIndexStable | backend/models/test.py:44 | `sorted` is stable: the questions of each `order_index` keep their relative order, and an already ordered list comes back unchanged |
| Models.TestToDict | backend/models/test.py:28-45 | every column of the row as stored; `attempts_count` is the number of attempts; questions only on request, as `to_dict()` of a reordering of the given questions by `order_index` (a permutation), without correct answers |
| Database.WithoutQuestion | backend/models/question.py:23 | deleting a question deletes its answers |
| Database.WithoutQuestionValid | backend/models/question.py:23 | deleting a question keeps the store consistent |
| Database.WithoutTest | backend/models/test.py:25-26 | deleting a test deletes its questions and attempts (and their answers) |
| Database.WithoutTestValid | backend/models/test.py:25-26 | deleting a test keeps the store consistent |
| Database.QuestionsOf | backend/models/test.py:25 | exactly the questions of the test |
| Database.AttemptsOf | backend/models/test.py:26 | exactly the attempts of the test |
| Database.AnswersOf | backend/models/attempt.py:23 | exactly the answers of the attempt |
| Database.AnswerFor | backend/services/attempt_service.py:45-48 | the answer row for (attempt, question), or proof that there is none |
| Database.TestByToken | backend/services/test_service.py:76 | the test holding the token, or proof that none does |
| Database.UserByEmail | backend/services/auth_service.py:56 | the user with that exact email, or proof that none has it |
| Database.AnswerQuestionsDistinct | backend/models/answer.py:13-15 | the answers of one attempt are for distinct questions |
| Database.TestQuestionCount | backend/models/test.py:25 | a set of the test's question ids is no larger than its question list |
| Database.AnswersBounded | backend/models/answer.py:13-15 | an attempt has no more answers than its test has questions |
| Database.Store.AddTest | backend/models/test.py:14-21 | a new test row under the next id, nothing else changed |
| Database.Store.PutTest | backend/models/test.py:14-21 | one test row replaced |
| Database.Store.RemoveTest | backend/models/test.py:25-26 | the cascade of a test delete |
| Database.Store.AddQuestion | backend/models/question.py:14-20 | a new question row under the next id |
| Database.Store.PutQuestion | backend/models/question.py:14-20 | one question row replaced |
| Database.Store.RemoveQuestion | backend/models/question.py:23 | the cascade of a question delete |
| Database.Store.AddAttempt | backend/models/attempt.py:14-19 | a new unfinished attempt without a score |
| Database.Store.CloseAttempt | backend/models/attempt.py:17-19 | score and finish time set together |
| Database.Store.AddAnswer | backend/models/answer.py:13-22 | a new answer row; refused when (attempt, question) is taken |
| Database.Store.PutAnswer | backend/models/answer.py:21-22 | one answer's payload and verdict replaced |
| Database.Store.AddUser | backend/models/user.py:14-17 | a new user row; the email must be free |
| Database.Store.PutUser | backend/models/user.py:14-17 | one user row replaced, the email still unique |
| AuthService.UserToDict | backend/models/user.py:35-42 | id, name and email, never the hash |
| AuthService.NormalizeEmail | backend/services/auth_service.py:38 | `strip().lower()` never lengthens the email |
| AuthService.NormalizeEmailIdempotent | backend/services/auth_service.py:38 | normalising twice is normalising once |
| AuthService.NameError | backend/services/auth_service.py:24-27 | a name is accepted exactly when it has at least 2 characters after stripping and at most 100 before |
| AuthService.RegisterError | backend/services/auth_service.py:12-32 | accepted exactly when email, password and name pass and no user holds the raw or the normalised email; email errors come first |
| AuthService.Registered | backend/services/auth_service.py:36-42 | one new user with the stripped name and the normalised email, nothing else changed |
| AuthService.RegisterUser | backend/services/auth_service.py:12-52 | an error changes nothing; otherwise the user is added and the session names them |
| AuthService.LoginUser | backend/services/auth_service.py:54-63 | success exactly when a user has this exact email and the password verifies; one message for both failures |
| AuthService.LoginUserFixed | backend/services/auth_service.py:54-63 | login that looks the email up in its stored, normalised form |
| AuthService.UserByEmailUnique | backend/models/user.py:16 | a stored email finds its own user |
| AuthService.RegisteredValid | backend/services/auth_service.py:36-42 | registering keeps the keys and email uniqueness valid |
| AuthService.RegisterThenLogin | backend/services/auth_service.py:36-63 | with the fix, a new user logs in with any spelling of the email that normalises the same |
| AuthService.UnknownEmailCannotLogIn | backend/services/auth_service.py:59-60 | an unknown email gets 'Invalid email or password' |
| AuthService.RegisteredCannotLogIn | backend/services/auth_service.py:36-60 | as written, a user registered with an email that normalisation changes cannot log in with that email |
| AuthService.NameAccepted | backend/services/auth_service.py:24-27 | a name of 2 to 100 characters with no whitespace at either end passes |
| AuthService.CapitalChanges | backend/services/auth_service.py:38 | an email starting with a capital letter is changed by normalisation |
| AuthService.RegisterAccepts | backend/services/auth_service.py:12-32 | passing every check means registration goes ahead |
| AuthService.CapitalisedEmailExample | backend/services/auth_service.py:12-40 | "Bob@x.com" registers, and is stored in a different form |
| AuthService.GetUserProfile | backend/services/auth_service.py:65-70 | the user's dict, or 'User not found' |
| AuthService.ProfileError | backend/services/auth_service.py:72-103 | no error exactly when the user exists and each supplied field passes its check; a user may keep their own email |
| AuthService.Profiled | backend/services/auth_service.py:80-103 | only the supplied fields change: stripped name, normalised email, new hash |
| AuthService.UpdateUserProfile | backend/services/auth_service.py:72-112 | an error rolls back to the old state; otherwise the store becomes the updated store and the new row is returned |
| AuthService.ProfiledValid | backend/services/auth_service.py:97 | an update to a free email keeps the keys and email uniqueness valid |
| AuthService.LoginAfterUpdate | backend/services/auth_service.py:97-103 | with the fix, a user logs in with their new email and password |
| AuthService.ProfileUpdated | backend/services/auth_service.py:80-105 | the store after a successful update: that user's row is the patched row, no other row or table changes, keys still valid |
| AuthService.ProfileUpdatedUnique | backend/services/auth_service.py:80-105 | an update that passes the checks keeps emails unique |
| AuthService.UpdateThenLogin | backend/services/auth_service.py:88-105 | after changing email and password, the new pair logs in (fixed lookup) |
| StatsService.Finished | backend/services/stats_service.py:17-19 | exactly the attempts with a finish time |
| StatsService.Scores | backend/services/stats_service.py:31 | the non-null scores; all of them when none is null; within 0..100 in a consistent store |
| StatsService.Max | backend/services/stats_service.py:38 | a member no smaller than any score |
| StatsService.Min | backend/services/stats_service.py:39 | a member no larger than any score |
| StatsService.MeanBetween | backend/services/stats_service.py:32 | the mean lies between the minimum and the maximum |
| StatsService.RoundedMeanBetween | backend/services/stats_service.py:37 | so does the mean rounded to two decimals |
| StatsService.StatsOf | backend/services/stats_service.py:21-40 | all zeros with no finished attempts or no scores; otherwise rounded mean, max and min of the scores |
| StatsService.FinishedAttemptsOf | backend/services/stats_service.py:17-19 | exactly the finished attempts of the test |
| StatsService.GetTestStatistics | backend/services/stats_service.py:10-40 | ownership errors, or the statistics of the test's finished attempts |
| StatsService.FinishedWellScored | backend/services/stats_service.py:31 | in a consistent store a finished attempt has a score |
| StatsService.TestStatisticsOrdered | backend/services/stats_service.py:21-40 | 0 ≤ lowest ≤ average ≤ highest ≤ 100, and every finished attempt is averaged |
| StatsService.InsertByStart | backend/services/stats_service.py:50 | inserting keeps newest-first order and adds exactly that attempt |
| StatsService.SortNewestFirst | backend/services/stats_service.py:50 | a permutation ordered by `started_at` descending |
| StatsService.SortedAttemptsOfTest | backend/services/stats_service.py:49-50 | sorting keeps the attempts of the test |
| StatsService.AttemptPage | backend/services/stats_service.py:51-55 | at most `limit` attempts starting at `skip`, in order, without answers |
| StatsService.GetTestAttempts | backend/services/stats_service.py:42-55 | ownership errors, or the window from `skip` of at most `limit` of the test's attempts sorted newest first, each without answers; a short first page lists them all |
| StatsService.FinishedAttemptsBy | backend/services/stats_service.py:58-66 | exactly the user's finished attempts |
| StatsService.GetUserStatistics | backend/services/stats_service.py:57-75 | finished attempts counted, tests created counted, and the average `round(sum / len, 2)` of the scores of finished attempts, 0 with none |
| StatsService.UserAverageBetween | backend/services/stats_service.py:64-74 | the user's average is a two-decimal value in 0..100 between their lowest and highest score |
| Tables.Ids | backend/models/test.py:25-26 | relationship order: the matching ids, ascending |
| Tables.Page | backend/services/test_service.py:22 | `offset(skip).limit(limit)`: the window of the list |
| ViewForms.GetFinds | backend/routes/views.py:177 | `form.get` finds the first value sent under a key, or none |
| ViewForms.GetList | backend/routes/views.py:453 | `form.getlist`: the values sent under a key, first one first |
| ViewForms.FieldIsStrippedGet | backend/routes/views.py:138 | a field is `form.get(key, '').strip()` |
| ViewForms.TextKeyIndex | backend/routes/views.py:170-173 | `questions[N][text]` yields N back |
| ViewForms.ScanIndices | backend/routes/views.py:168-173 | holds only indices of text keys that were sent |
| ViewForms.ScanIndicesConverts | backend/routes/views.py:168-173 | fails exactly when a text key's index is not an int; otherwise holds every sent index |
| ViewForms.QuestionIndices | backend/routes/views.py:168-173 | the loop over the form keys computes the index set |
| ViewForms.SentTextKeyFound | backend/routes/views.py:169-173 | every sent `questions[N][text]` puts N in the set |
| ViewForms.SortedIndices | backend/routes/views.py:176 | `sorted(set)`: the same members, ascending |
| ViewForms.CheckedBelow | backend/routes/views.py:194-196 | the checked option indices, ascending |
| ViewForms.OptionsRunUnique | backend/routes/views.py:184-198 | the options read up to the first blank and their checked indices are determined by the form |
| ViewForms.OptionsBounded | backend/routes/views.py:188-198 | the `while True` loop reads no more options than the form has fields |
| ViewForms.CollectOptions | backend/routes/views.py:184-198 | the loop collects the non-blank options up to the first blank, and the checked ones among them |
| ViewForms.Kept | backend/routes/views.py:180-181 | questions with blank text are skipped, order kept |
| ViewForms.BuildDrafts | backend/routes/views.py:176-215 | one draft per kept index, ascending, with its stripped text, type (default `single`), options and checked indices |
| ViewForms.FormDraftsShape | backend/routes/views.py:168-215 | the drafts are determined by the form, ordered by index, non-blank, and their checked indices lie among their options |
| ViewForms.OptionsColumn | backend/routes/views.py:211 | null exactly when there are no options |
| ViewForms.CorrectColumn | backend/routes/views.py:203 | null exactly when nothing was checked |
| Views.WithDrafts | backend/routes/views.py:207-215 | adding the drafts touches only the questions table and its counter |
| Views.WithDraftsRows | backend/routes/views.py:207-215 | old rows are kept, and draft i becomes row `next + i` |
| Views.AddDrafts | backend/routes/views.py:205-215 | the loop of adds produces exactly `WithDrafts` |
| Views.DraftsKeysValid | backend/routes/views.py:207-215 | adding drafts keeps the keys valid |
| Views.DraftsBecomeQuestions | backend/routes/views.py:207-215 | a test without questions gets exactly the draft rows as its questions |
| Views.WithoutQuestionsRows | backend/routes/views.py:281-282 | deleting questions removes exactly them and their answers |
| Views.RemoveQuestions | backend/routes/views.py:281-282 | the delete loop produces exactly `WithoutQuestions` |
| Views.CreateError | backend/routes/views.py:130-160 | nothing is saved exactly when there is no user, a blank title, a non-int index or a clashing token; a blank title is flashed |
| Views.ParseDrafts | backend/routes/views.py:167-215 | the two form loops build the form's drafts |
| Views.SaveNewTest | backend/routes/views.py:148-217 | the new test row and its drafts are stored |
| Views.CreateTestFromForm | backend/routes/views.py:128-226 | an error saves nothing; otherwise the new test and its form questions are stored |
| Views.CreatedQuestions | backend/routes/views.py:148-215 | the new test's questions, in id order, are exactly the rows of the form's drafts |
| Views.CreatedTest | backend/routes/views.py:141-157 | the new test is published, with a token, exactly when the action is `publish`; its questions are the drafts; nothing else changes |
| Views.EditError | backend/routes/views.py:230-266 | nothing is saved exactly when there is no user, another owner, or (unless deleting) a blank title, a non-int index or a clashing token |
| Views.EditTestFromForm | backend/routes/views.py:228-333 | an error saves nothing; `delete` removes the test; otherwise the row is updated and the questions replaced |
| Views.EditedQuestions | backend/routes/views.py:262-322 | after an edit the test's questions, in id order, are exactly the rows of the new drafts |
| Views.EditedTest | backend/routes/views.py:262-322 | the test's questions become the drafts, old answers to them go, other tests are untouched; any non-publish action unpublishes; an existing token is kept |
| Views.ParseAll | backend/routes/views.py:454 | every checkbox value converts with `int()`, or one does not |
| Views.AnswerTexts | backend/routes/views.py:446-457 | the stored answer text of each question, in order |
| Views.LegacyCount | backend/routes/views.py:443-493 | after `n` turns the number of right answers is at most `n` |
| Views.LegacyScore | backend/routes/views.py:496 | 0 with no questions or no right answer; 100 when all are right; within 0..100 |
| Views.WithAnswers | backend/routes/views.py:459-465 | after `n` turns only the answers table has changed, and its counter has grown by `n` |
| Views.WithAnswersRows | backend/routes/views.py:459-465 | after `n` turns old answers are kept, answer i is row `next + i` for question i, ungraded, and no other id is used |
| Views.AnswersKeysValid | backend/routes/views.py:459-465 | adding the answers keeps the keys valid |
| Views.SaveAnswer | backend/routes/views.py:459-465 | one turn of the loop stores the answer to the next question, ungraded, and keeps the store consistent |
| Views.CountAnswer | backend/routes/views.py:466-493 | one turn of the loop counts the answer exactly when the page's own check finds it right |
| Views.RecordAnswers | backend/routes/views.py:443-493 | the loop stores one answer per question and counts exactly the legacy right answers |
| Views.TakeError | backend/routes/views.py:422-431 | saving is refused exactly for an unknown or unpublished token or a missing session |
| Views.SaveSubmission | backend/routes/views.py:435-500 | the attempt, its answers and its closing are stored |
| Views.TakeTest | backend/routes/views.py:413-510 | refusals and a non-int checkbox value change nothing; otherwise the graded attempt is stored and its id returned |
| Views.SubmittedRows | backend/routes/views.py:460-464 | one ungraded answer row per question, in question order |
| Views.TakenAttempt | backend/routes/views.py:435-500 | a fresh attempt id gets the attempt of the test by the user, finished now with the legacy integer score |
| Views.TakenFrame | backend/routes/views.py:435-500 | besides the new attempt and its answers nothing changes, and every old answer is kept |
| Views.TakenAnswers | backend/routes/views.py:443-465 | the keys stay valid and the new attempt's answers are exactly the submitted rows |
| Views.SubmittedAnswers | backend/routes/views.py:459-465 | the answers stored for the attempt are exactly the submitted rows, in question order |
| Views.CorrectCountAsWritten | backend/routes/views.py:531 | a non-negative count no larger than score × total / 100 |
| Views.CorrectCount | backend/routes/views.py:531 | the count rounded up, so that it is no smaller than score × total / 100 |
| Views.TestResult | backend/routes/views.py:512-537 | 404 for a missing attempt or test; shown exactly to a logged-in owner or author of a scored attempt; login asked for without a session; the right-answer count as written, truncated |
| Views.TestResultFixed | backend/routes/views.py:512-537 | the same outcome with the right-answer count rounded up, and nothing else changed |
| Views.ResultUndercountsOneOfThree | backend/routes/views.py:531 | for 1 right answer of 3 the page as written shows 0 right, and the corrected page shows 1 |
| Views.CorrectCountAsWrittenAtMost | backend/routes/views.py:531 | the count as written never exceeds the real count |
| Views.CorrectCountAsWrittenUndercounts | backend/routes/views.py:531 | 1 right of 3 scores 33 and is shown as 0 right |
| Views.CorrectCountRecovered | backend/routes/views.py:531 | rounding up recovers the real count for up to 100 questions |
| Views.ResultOfTakenAttempt | backend/routes/views.py:413-537 | after taking a test of at most 100 questions the owner sees at most the real count as written, and exactly the real count with the fix |
| Views.FormSingleGraded | backend/routes/views.py:478-484 | a single-choice question built from the form is right exactly when the answer parses to the first checked index |
| Views.SortedEqualInts | backend/routes/views.py:475 | sorted equality of int lists is multiset equality |
| Views.FormMultipleGraded | backend/routes/views.py:472-476 | a multiple-choice question built from the form is right exactly when the ticked indices are a permutation of the checked ones |
| Views.FormMultipleUnticked | backend/routes/views.py:452-476 | ticking nothing is wrong when something was checked |
| ClientUtils.Trim | frontend/js/utils.js:35 | `trim()` removes exactly the surrounding JavaScript whitespace |
| ClientUtils.TrimPadded | frontend/js/utils.js:53 | trimming a padded word gives the word |
| ClientUtils.Utf16Length | frontend/js/utils.js:44 | `length` counts UTF-16 units: between one and two per character |
| ClientUtils.EmailShapeSound | frontend/js/utils.js:34 | the split check implies the pattern |
| ClientUtils.EmailShapeComplete | frontend/js/utils.js:34 | any way of matching the pattern passes the split check |
| ClientUtils.IsValidEmailIff | frontend/js/utils.js:32-36 | accepted exactly when non-empty and the trimmed value matches the pattern |
| ClientUtils.ServerEmailPassesClient | frontend/js/utils.js:32-36 | every address the server pattern accepts is accepted in the browser |
| ClientUtils.ServerPasswordPassesClient | frontend/js/utils.js:43-45 | every password the server accepts is accepted in the browser |
| ClientUtils.ClientPasswordWeaker | frontend/js/utils.js:43-45 | "abcdefgh" passes the browser but the server wants a digit |
| ClientUtils.TrimIgnoresPadding | frontend/js/utils.js:53 | whitespace around a name does not change its trimmed form |
| ClientUtils.ValidateNamePadding | frontend/js/utils.js:52-54 | whitespace around a name does not change the verdict |
| ClientUtils.SplitSpace | frontend/js/utils.js:163 | `split(' ')`: at least one part, no part holds a space, and joining gives the string back |
| ClientUtils.SplitJoin | frontend/js/utils.js:163 | splitting a join gives the parts back |
| ClientUtils.Upper | frontend/js/utils.js:165 | `toUpperCase()` character by character |
| ClientUtils.Prefix2 | frontend/js/utils.js:167 | `substring(0, 2)` is a prefix of at most two characters |
| ClientUtils.GetInitials | frontend/js/utils.js:161-168 | 'U' for an empty name |
| ClientUtils.InitialsOfName | frontend/js/utils.js:161-168 | one word: the first two characters of the untrimmed name, upper-cased; two or more pieces: the first character and the one after the first space, upper-cased, or `UNDEFINED` when that is a second space |
| ClientUtils.GetInitialsFixed | frontend/js/utils.js:161-168 | at most two characters; 'U' for an empty name |
| ClientUtils.InitialsOfNameFixed | frontend/js/utils.js:161-168 | one word: as written; two or more words: the first characters of the first two words, upper-cased, however many spaces separate them |
| ClientUtils.GetInitialsFixedAgrees | frontend/js/utils.js:161-168 | the fix changes nothing when no part of the split is empty |
| ClientUtils.GetInitialsDoubleSpace | frontend/js/utils.js:163-165 | "a  b" gives "AUNDEFINED" as written and "AB" fixed |
| ClientUtils.CalculateScorePercentage | frontend/js/utils.js:176-179 | 0 when the maximum is missing or 0 |
| ClientUtils.PercentageBounds | frontend/js/utils.js:176-179 | within 0..100 for a score up to the maximum; 100 at the maximum, 0 at 0 |
| ClientUtils.PercentageMonotone | frontend/js/utils.js:178 | a higher score never gives a lower percentage |
| ClientUtils.GetScoreGrade | frontend/js/utils.js:186-190 | 'excellent' exactly from 80, 'good' exactly from 60 below 80, 'average' exactly below 60 |
| ClientUtils.GradeMonotone | frontend/js/utils.js:186-190 | a higher percentage never gets a lower grade |

## Left out

- Validation.ValidatePassword: Python `\d`, `[A-Z]` and `[a-z]` are read as ASCII. A non-ASCII digit satisfies `\d` in Python but does not count here.
- Non-string values for a name, a text field or an email from a form are not modelled. JSON request bodies are modelled as `Json` values, except `question_text`, which is a `string` in `TestService.QuestionInput`. A non-string `question_text` makes `strip()` raise `AttributeError` at backend/services/test_service.py:91; backend/routes/questions.py:74-78 catches only `ValueError`, so the request ends in a server error, which is not modelled.
- Flashed messages built from `str(e)` are modelled as the single outcome `RolledBack`.
- The `IntegrityError` race in `submit_answer` is not modelled. Uniqueness is a map invariant, and the lookup-then-write runs as one step.
- Password hashing and checking, JWT creation, `uuid4`, `secrets.token_urlsafe` and `datetime.utcnow` are parameters. A token clash is an error outcome.
- Float effects are not modelled. `int(c / t * 100)` and `round(x, 2)` work on exact reals, so IEEE representation and double rounding are not captured.
- The page views for login, dashboard, statistics page and logout are not modelled. They only read or end the session.
- The `register` and `settings` page views (backend/routes/views.py:56-99 and 360-407) write users under their own rules, which are not modelled. `register` stores the raw name and email without `validate_email` or normalisation, and checks `confirm_password` and name uniqueness. `settings` writes a new password, `name.strip()` with no length check, and `email.strip().lower()` after a uniqueness check on the raw email; the name is committed even when the email is refused.
- `attempt.completed = True` in `take_test` is not modelled. The attempt model has no such column.
- `take_test` computes the form's answers before any write and rolls back as a whole, so the partial writes of the failing submission are not modelled. The state is unchanged, as after the rollback.
- The `started_at` and `finished_at` of a form-taken attempt are both the request time `now`.
- Views.CorrectCountRecovered: the recovery is proved only for tests of at most 100 questions, and only for scores written by `take_test`. A score written by `finish_attempt` (two decimals) is not covered.
- The browser sends 1-based option indices. That encoding belongs to the page scripts and is not modelled. Grading uses the backend's 0-based indices.
- ClientUtils.Upper: `toUpperCase` is modelled for the one-to-one mappings of ASCII, Latin-1 (with `µ` → `Μ`) and Cyrillic (U+0400 to U+04FF). Other scripts (Greek, Latin Extended, Armenian and the rest) are left unchanged, and expansions such as `ß` → `SS` are not modelled.
- PyText.Lower: `str.lower()` is modelled for the one-to-one mappings of ASCII, Latin-1 and Cyrillic (U+0400 to U+04FF). Python folds every script, so `"Σ".lower() == "σ"` there and not here, and `"İ".lower()` is two characters long in Python.
- PyText.ParseInt: `int(s)` is modelled for ASCII digits. Python also accepts other Unicode decimal digits, so `int("٣") == 3` there, while here it fails.
- Grading.GradeText: rests on PyText.Lower. Two texts that differ only in letters outside ASCII, Latin-1 and Cyrillic case are graded wrong here and may be right in Python.
- AuthService.NormalizeEmail: rests on PyText.Lower. "Never lengthens" holds for the model's lower-casing only, because Python's `lower()` can expand a character (`"İ"`).
- JsonValues.PyInt: rests on PyText.ParseInt. A string of non-ASCII decimal digits raises here and converts in Python.
- Grading.SortedEqual: lists of numbers, of strings, of number lists and of string lists are ordered. Deeper nesting, and lists that mix number lists with string lists, are treated as raising. In Python whether `sorted` raises there depends on which elements the sort happens to compare.
- Grading.CheckAnswer: carries the gaps of GradeText, PyInt and SortedEqual above. JSON numbers are exact, with no infinity or NaN, so a `single` answer `"Infinity"`, for which `int(inf)` raises `OverflowError` outside both `except` clauses, is not modelled.
- AttemptService.SubmitAnswer: the message of a raising grader is "Error submitting answer" without the `: {str(e)}` suffix, because exception text is not modelled.
- ClientUtils.GetInitials: `[0]` and `substring` are modelled on code points, not on UTF-16 units.
- ClientUtils.ServerEmailPassesClient: the lemma is stated for a value the server pattern accepts as it stands. Python's `strip()` and JavaScript's `trim()` remove different sets of characters, so a padded value is not covered.
- `debounce`, `showNotification` and the DOM helpers in the browser are not modelled. They hold timers and touch the page.
- Relationship order (`test.questions`, `attempt.answers`) is ascending id. SQLAlchemy gives no order without `order_by`.
- StatsService.SortNewestFirst: attempts with equal `started_at` are kept in ascending id order. SQL `ORDER BY started_at DESC` fixes no order among ties.
- Database.Store.AddTest: like Database.Store.AddQuestion, Database.Store.AddAttempt, Database.Store.AddAnswer and Database.Store.AddUser, it takes a fresh id from a per-table counter and never reuses one, as AUTOINCREMENT or a server sequence would. The default SQLite database declares plain `Integer` primary keys, so after the row with the largest id is deleted SQLite gives that id to the next insert; that reuse is not modelled.
- TestService.CanonicalCorrectAnswer: where `int()` raises at test_service.py:108 the source passes on Python's own exception text; the model returns the fixed message "correct_answer is not an option index", because exception text is not modelled.
- Question and answer JSON is decoded through the abstract `Codec`. The JSON parser itself is not modelled.

## Findings

| source | as written | input that shows it | evidently intended | confidence | as-written member | corrected member |
|---|---|---|---|---|---|---|
| backend/services/test_service.py:101-110 | a `single` correct answer sent as a string is stored as null, though `validate_question_options` accepts string indices | `question_type='single'`, `correct_answer="1"` | store `[int("1")] = [1]` | not executed | TestService.CanonicalCorrectAnswer, TestService.NewQuestionFields, TestService.CreateQuestion, TestService.StringIndexNeverGraded, TestService.ValidatedIndexDropped, TestService.StringIndexFields | TestService.CanonicalCorrectAnswerFixed, TestService.NewQuestionFieldsFixed, TestService.CreatedSingleGradesByIndex, TestService.ValidatedIndexStored |
| backend/services/auth_service.py:36-60 | registration stores `email.strip().lower()` but login looks up the raw email | register and log in with `Bob@x.com` | look the email up in normalised form | not executed | AuthService.LoginUser, AuthService.RegisteredCannotLogIn, AuthService.CapitalisedEmailExample | AuthService.LoginUserFixed, AuthService.RegisterThenLogin |
| backend/routes/views.py:531 | `correct_count = int(score * total / 100)` truncates a score already truncated at line 496, so it undercounts | 1 right answer of 3: score 33, shown as 0 right | the number of right answers | not executed | Views.CorrectCountAsWritten, Views.TestResult, Views.CorrectCountAsWrittenUndercounts, Views.ResultUndercountsOneOfThree | Views.CorrectCount, Views.TestResultFixed, Views.CorrectCountRecovered, Views.ResultOfTakenAttempt |
| frontend/js/utils.js:161-168 | `split(' ')` yields empty parts for repeated spaces, and `undefined` is concatenated | `getInitials("a  b")` returns `"AUNDEFINED"` | initials of the first two words: `"AB"` | not executed | ClientUtils.GetInitials, ClientUtils.InitialsOfName, ClientUtils.GetInitialsDoubleSpace | ClientUtils.GetInitialsFixed, ClientUtils.InitialsOfNameFixed, ClientUtils.GetInitialsFixedAgrees |
