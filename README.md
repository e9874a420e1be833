# Timed quiz engine — Dafny model

A Flask application (`app.py`) runs a timed quiz. An author adds questions
(`add_question`); a participant starts a session with a duration in minutes
(`quiz`); while the deadline has not passed, the quiz page shows the
questions and the time left, and posting the answers stores one graded row
per answered question (`quiz_page`); the result page lists the
participant's stored rows joined with their questions (`quiz_result`).

This project models that core once the web framework and the database are
abstracted into values:

- `Optional` (optional.dfy): `Option`, for `dict.get` and `Query.get`.
- `Text` (text.dfy): Python's `str.strip()` over the exact set of characters
  `str.isspace()` accepts, `str.lower()` as ASCII case folding, the grading
  rule `answer.strip().lower() == correct.strip().lower()`, and `str(n)`
  for the form field names `q<id>`.
- `SessionClock` (clock.dfy): the three session values written at quiz
  start (default duration 10 minutes), the deadline `start + duration`
  minutes, and the guard shared by the GET and POST of `quiz_page`. Instants
  are whole seconds in one UTC frame, so the deadline test is integer
  comparison.
- `QuizStore` (store.dfy): the `question` and `user_response` tables as
  sequences in row-id order, owned by the class `QuizDatabase`, whose
  methods append to them in place as the routes do: `AddQuestion`,
  `SubmitAnswers` (the session and deadline guards) with `RecordAnswers`
  (the loop over the catalog, which collects the added rows and commits
  them to the table at once, proved against the specification function
  `NewResponses`), and the read-only `Results` (the loop over the stored
  rows, proved against `ResultRows`). The properties of those
  specification functions are lemmas beside them.

The code has no upsert on (user, question), so a repeated submission adds
duplicate rows (`ResubmissionDuplicates`). It has no error for a zero or
negative duration, which gives a session that is closed from the start
(`StartedQuizWindow`). The remaining time is never clamped, because the page
is only served while it is positive (`SessionClock.CheckSession`). The
result is in stored order, not by question id. It has no aggregate score and
no entries for unanswered questions. Without a session user id it is empty.

## Model

| member | source | states |
|---|---|---|
| `Text.Strip` | app.py:81 | `strip()` leaves no whitespace at either end and never lengthens the string |
| `Text.StripSplits` | app.py:81 | every string is a whitespace prefix, its stripped form, and a whitespace suffix |
| `Text.StripOfPadded` | app.py:81 | stripping whitespace-padded trimmed text gives back exactly that text |
| `Text.StripIdempotent` | app.py:81 | stripping twice equals stripping once |
| `Text.StripIgnoresPadding` | app.py:81 | extra leading and trailing whitespace does not change `strip()` |
| `Text.LowerChar` | app.py:81 | an upper-case Latin letter becomes the lower-case letter at the same place in the alphabet, every other character is kept, and whitespace stays whitespace |
| `Text.Lower` | app.py:81 | the folded string has the same length, and each character is the fold of the character at the same place |
| `Text.LowerIdempotent` | app.py:81 | folding case twice equals folding once |
| `Text.StripLowerCommute` | app.py:81 | `s.lower().strip() == s.strip().lower()` |
| `Text.Normalize` | app.py:81 | `Normalize(s)` is `Lower(Strip(s))`, the `s.strip().lower()` both sides of a grading are brought to (a definition; its properties are the lemmas below) |
| `Text.NormalizeShape` | app.py:81 | the normal form has no whitespace at either end, no upper-case letter, and is no longer than the text |
| `Text.NormalizeIdempotent` | app.py:81 | the normal form `strip().lower()` is a fixed point |
| `Text.IsCorrect` | app.py:81 | `IsCorrect(a, c)` iff `Lower(Strip(a)) == Lower(Strip(c))` (a definition; its properties are the lemmas below) |
| `Text.IsCorrectStripped` | app.py:81 | answers whose stripped texts are equal are graded correct; a correct answer's stripped text is as long as the stored answer's |
| `Text.IsCorrectEquivalence` | app.py:81 | grading is reflexive, symmetric and transitive |
| `Text.IsCorrectOfNormalForm` | app.py:81 | grading an answer or the stored answer equals grading its normal form |
| `Text.IsCorrectIgnoresPadding` | app.py:81 | surrounding whitespace on either side does not change the verdict |
| `Text.IsCorrectIgnoresCase` | app.py:81 | answers of equal length whose characters are, place by place, equal or the two cases of one letter of `A`-`Z`/`a`-`z` get the same verdict, on either side |
| `Text.Decimal` | app.py:79 | `str(n)` is a non-empty string of decimal digits with no leading zero, ending in `n % 10`, one digit exactly for `n < 10` |
| `Text.DecimalValue` | app.py:79 | the digits of `str(n)`, read back most significant first, denote exactly `n` |
| `Text.DecimalInjective` | app.py:79 | distinct numbers render as distinct strings |
| `QuizStore.FieldName` | app.py:79 | the field name is `q` followed by the decimal id |
| `QuizStore.FieldNameInjective` | app.py:79 | distinct questions read distinct form fields |
| `QuizStore.Field` | app.py:79 | `request.form.get(name)` is present exactly when the form has that field, and then holds the posted text |
| `QuizStore.Filled` | app.py:80 | `Filled(v)` iff the value is present and not the empty string |
| `QuizStore.Answered` | app.py:79-80 | `Answered(form, q)` iff `Filled(Field(form, FieldName(q.id)))` (a definition; `AnsweredMeans` spells it out) |
| `QuizStore.AnsweredMeans` | app.py:79-82 | a question is answered iff the form has its `q<id>` field with a non-empty value; its record then carries the session user, the question id, that raw value and its grade |
| `QuizStore.Record` | app.py:81-82 | `Record(user, form, q)` is `UserResponse(user, q.id, raw, IsCorrect(raw, q.correctAnswer))` for the raw text `raw` of field `q<id>` (a definition; `AnsweredMeans` states its fields) |
| `QuizStore.LastRow` | app.py:80-83 | visiting one question appends at most one row |
| `QuizStore.NewResponses` | app.py:78-83 | the rows one submission adds: for each catalog question in order, its record when its field is filled; never more rows than questions |
| `SessionClock.StartQuiz` | app.py:51-56 | the session holds the given user id, starts now, and has the posted duration or 10 minutes |
| `SessionClock.Deadline` | app.py:66-68 | the deadline lies after the start exactly when the duration is positive, a whole number of minutes later |
| `SessionClock.CheckSession` | app.py:63-72 | no start time means no session; expired exactly when `now >= end`; otherwise open with `end - now > 0` left |
| `SessionClock.ClosedAtDeadline` | app.py:68-71 | at the deadline the session is closed; one second before, it is open with one second left |
| `SessionClock.ExpiryIsFinal` | app.py:69-72 | an expired session stays expired at every later instant |
| `SessionClock.StartedQuizWindow` | app.py:51-71 | a quiz started at `now` is open at `t` iff `t < now + minutes * 60`; a non-positive duration is closed at once |
| `SessionClock.OneMinuteBoundary` | app.py:66-71 | a one-minute session is open 59 s after its start and closed 61 s after it |
| `QuizStore.QuizPage` | app.py:63-87 | the questions are shown only before the deadline, with strictly positive remaining time; otherwise a redirect to the start or submit page |
| `QuizStore.NextId` | app.py:16 | a new question's id exceeds every existing id |
| `QuizStore.Find` | app.py:100 | a lookup returns a catalog question with that id, or none when no question has it |
| `QuizStore.FindById` | app.py:100 | with increasing ids, looking up a question's id finds that question |
| `QuizStore.FindAfterAppend` | app.py:40-43 | appending a question does not change what an existing id finds |
| `QuizStore.QuizDatabase.constructor` | app.py:28-29 | both tables start empty |
| `QuizStore.QuizDatabase.AddQuestion` | app.py:36-43 | one question with the next id is appended iff both fields are non-empty; otherwise nothing changes |
| `QuizStore.QuizDatabase.SubmitAnswers` | app.py:63-85 | no session or a passed deadline writes nothing; else the table becomes the old rows followed by `NewResponses` for the catalog, keeping the foreign-key invariant |
| `QuizStore.QuizDatabase.RecordAnswers` | app.py:76-84 | the rows added for the filled fields are committed together: the table becomes the old rows followed by `NewResponses` for the catalog, the catalog is unchanged, and every row stays linked to a question |
| `QuizStore.NewResponsesStep` | app.py:78-83 | visiting one more question appends its row if its field is filled, and nothing otherwise |
| `QuizStore.NewResponsesSound` | app.py:79-82 | every appended row is the record of an answered catalog question: its id, the raw text, the session user, the grade |
| `QuizStore.NewResponsesComplete` | app.py:78-83 | every answered catalog question has its row among the appended ones |
| `QuizStore.NewResponsesOrdered` | app.py:78 | the appended rows follow catalog order, so no question gets two rows from one submission |
| `QuizStore.NewResponsesOfUser` | app.py:77-82 | every appended row carries the session's user id |
| `QuizStore.NewResponsesCount` | app.py:78-84 | the table grows by exactly the number of filled fields of catalog questions |
| `QuizStore.NewResponsesLinked` | app.py:82 | appended rows refer to catalog questions |
| `QuizStore.SubmissionAddsOneRowPerAnswer` | app.py:78-84 | a submission adds exactly one row for an answered question and none for an unanswered one, on top of the earlier rows |
| `QuizStore.ResubmissionDuplicates` | app.py:78-84 | submitting the same answers twice leaves two more rows per answered question, not one |
| `QuizStore.Row` | app.py:101-106 | an entry carries the question's text and stored answer beside the response's raw answer and its stored grade |
| `QuizStore.ResultRows` | app.py:96-106 | the user's rows in stored order, each joined with its question; at most one entry per stored row, and none without a session user id |
| `QuizStore.QuizDatabase.Results` | app.py:95-108 | the read-only result equals `ResultRows` of the stored tables |
| `QuizStore.ResultRowsAppend` | app.py:96-106 | the result of a longer table is the earlier result followed by the result of the new rows |
| `QuizStore.ResultRowsMembership` | app.py:96-106 | every entry comes from a stored row of the user joined with its question, and every such row gives an entry |
| `QuizStore.ResultRowsCount` | app.py:96-106 | the user's result has exactly one entry per stored row of that user, so a question answered twice is listed twice |
| `QuizStore.ResultRowsIgnoreOthers` | app.py:95-96 | rows of other users, or no user id at all, give no entries |
| `QuizStore.SubmissionInOwnResult` | app.py:78-106 | after a submission the user's result keeps its old entries and then lists each answered question with its raw answer and grade |
| `QuizStore.SubmissionInvisibleToOthers` | app.py:82-96 | a submission leaves every other user's result unchanged |

## Left out

- Routing, redirects, templates and the secret key: each route's outcome is a datatype (`PageOutcome`, `SubmitOutcome`), and the `quiz_submit` page and the question listing on GET `add_question` only render.
- SQLAlchemy models, `db.session.add`/`commit` and `create_all`: the tables are in-memory sequences, and transaction semantics belong to the database.
- The `user_response.id` row id: it is never read, so response rows carry no id.
- The column length limits (200 and 100 characters): SQLite does not enforce them.
- Time zones, `datetime.now`, `isoformat`/`fromisoformat`: instants are integer seconds in one UTC frame, and `now` is a parameter.
- SessionClock.Deadline: works in whole seconds, not microseconds, and has no `OverflowError` for durations beyond the range of `datetime`.
- The `user_id` derived from the float timestamp at quiz start: it is an opaque string given to `StartQuiz`.
- `int()` parsing of the duration field: the duration is an optional integer, so the `ValueError` of a non-numeric field is not modelled.
- Text.Lower: folds ASCII letters only; Python's `str.lower()` also folds other Unicode letters, some into longer strings.
- Repeated form fields: the form holds one value per field name; `request.form.get` on a multi-dict would return the first of several posted values.
- Concurrent or doubled posts: they depend on the database's concurrency, and the code has no locking.
- A stored response whose question no longer exists (`Query.get` returning `None`): the class invariant keeps every response linked to a catalog question, as the foreign key intends.
