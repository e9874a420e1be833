/** The question catalog and the response table, and the three things the
    routes do with them: `add_question` appends a question, a POST to
    `quiz_page` appends one graded response per answered question, and
    `quiz_result` joins a user's responses with their questions. The two
    tables are sequences in insertion (row id) order. */
module QuizStore {

  import opened Optional
  import opened Text
  import opened SessionClock

  /** A row of the `question` table. */
  datatype Question = Question(id: nat, text: string, correctAnswer: string)

  /** A row of the `user_response` table; `isCorrect` is fixed when the row
      is written. */
  datatype UserResponse = UserResponse(userId: string, questionId: nat, answer: string, isCorrect: bool)

  /** One entry of `result_data`. */
  datatype ResultRow = ResultRow(question: string, yourAnswer: string, correctAnswer: string, isCorrect: bool)

  /** The posted form: field name to submitted text. */
  type Form = map<string, string>

  // ------------------------------------------------------------ catalog

  /** Row ids grow with insertion order. */
  predicate IdsIncreasing(qs: seq<Question>) {
    forall i, j :: 0 <= i < j < |qs| ==> qs[i].id < qs[j].id
  }

  /** The id SQLite gives the next row of an integer primary key: one more
      than the largest so far, which (rows are never deleted) is the last. */
  function NextId(qs: seq<Question>): (id: nat)
    requires IdsIncreasing(qs)
    ensures id >= 1
    ensures forall i :: 0 <= i < |qs| ==> qs[i].id < id
  {
    if qs == [] then 1 else qs[|qs| - 1].id + 1
  }

  /** `Question.query.get(id)`. */
  function Find(qs: seq<Question>, id: nat): (r: Option<Question>)
    ensures r.Some? ==> r.value in qs && r.value.id == id
    ensures r.None? ==> forall q :: q in qs ==> q.id != id
  {
    if qs == [] then None
    else if qs[0].id == id then Some(qs[0])
    else Find(qs[1..], id)
  }

  /** With distinct ids, looking up a question's id finds that question. */
  lemma {:induction false} FindById(qs: seq<Question>, i: nat)
    requires IdsIncreasing(qs) && i < |qs|
    ensures Find(qs, qs[i].id) == Some(qs[i])
  {
    if i > 0 {
      assert qs[0].id < qs[i].id;
      assert qs[1..][i - 1] == qs[i];
      FindById(qs[1..], i - 1);
    }
  }

  /** Appending to the catalog does not change what an existing id finds. */
  lemma {:induction false} FindAfterAppend(qs: seq<Question>, q: Question, id: nat)
    requires Find(qs, id).Some?
    ensures Find(qs + [q], id) == Find(qs, id)
  {
    if qs[0].id != id {
      assert (qs + [q])[1..] == qs[1..] + [q];
      FindAfterAppend(qs[1..], q, id);
    }
  }

  /** Every stored response names a question of the catalog (the foreign key
      on `user_response.question_id`). */
  predicate Linked(qs: seq<Question>, rs: seq<UserResponse>) {
    forall k :: 0 <= k < |rs| ==> Find(qs, rs[k].questionId).Some?
  }

  /** Appending linked rows to a linked table keeps it linked. */
  lemma LinkedAppend(qs: seq<Question>, a: seq<UserResponse>, b: seq<UserResponse>)
    requires Linked(qs, a) && Linked(qs, b)
    ensures Linked(qs, a + b)
  {
    assert forall k :: 0 <= k < |a + b| ==> (a + b)[k] == if k < |a| then a[k] else b[k - |a|];
  }

  /** Every prefix of a linked table is linked. */
  lemma LinkedPrefix(qs: seq<Question>, rs: seq<UserResponse>, n: nat)
    requires Linked(qs, rs) && n <= |rs|
    ensures Linked(qs, rs[..n])
  {
    assert forall k :: 0 <= k < n ==> rs[..n][k] == rs[k];
  }

  // ------------------------------------------------------- form fields

  /** `f"q{q.id}"`: the form field holding the answer to question `id`. */
  function FieldName(id: nat): (name: string)
    ensures |name| >= 2 && name[0] == 'q'
    ensures name[1..] == Decimal(id)
  {
    "q" + Decimal(id)
  }

  /** Different questions read different form fields. */
  lemma FieldNameInjective(a: nat, b: nat)
    requires FieldName(a) == FieldName(b)
    ensures a == b
  {
    assert FieldName(a)[1..] == Decimal(a);
    assert FieldName(b)[1..] == Decimal(b);
    DecimalInjective(a, b);
  }

  /** `request.form.get(name)`. */
  function Field(form: Form, name: string): (v: Option<string>)
    ensures v.Some? <==> name in form
    ensures v.Some? ==> v.value == form[name]
  {
    if name in form then Some(form[name]) else None
  }

  /** Python truthiness of a form value: present and not the empty string. */
  predicate Filled(v: Option<string>): (b: bool)
    ensures b <==> v.Some? && |v.value| > 0
  {
    v.Some? && v.value != ""
  }

  /** The form carries a non-empty answer for question `q`. */
  predicate Answered(form: Form, q: Question) {
    Filled(Field(form, FieldName(q.id)))
  }

  /** The response written for an answered question: the raw text as
      submitted, graded against the question's stored answer. */
  function Record(userId: string, form: Form, q: Question): (r: UserResponse)
    requires Answered(form, q)
  {
    var answer := form[FieldName(q.id)];
    UserResponse(userId, q.id, answer, IsCorrect(answer, q.correctAnswer))
  }

  /** A question is answered exactly when the form has its `q<id>` field
      with a non-empty value, and its record carries that value. */
  lemma AnsweredMeans(userId: string, form: Form, q: Question)
    ensures Answered(form, q) <==> FieldName(q.id) in form && |form[FieldName(q.id)]| > 0
    ensures Answered(form, q) ==>
              var r := Record(userId, form, q);
              r.userId == userId && r.questionId == q.id && r.answer == form[FieldName(q.id)]
              && r.answer != "" && (r.isCorrect <==> IsCorrect(r.answer, q.correctAnswer))
  {
  }

  // --------------------------------------------------------- submission

  /** The row, if any, that visiting question `q` appends: its record when its
      field is filled. */
  function LastRow(userId: string, q: Question, form: Form): (r: seq<UserResponse>)
    ensures |r| <= 1
  {
    if Answered(form, q) then [Record(userId, form, q)] else []
  }

  /** The row visiting `q` appends, in terms of the form field as the loop
      reads it. */
  lemma LastRowOfField(userId: string, q: Question, form: Form)
    ensures var v := Field(form, FieldName(q.id));
            LastRow(userId, q, form)
              == if Filled(v) then [UserResponse(userId, q.id, v.value, IsCorrect(v.value, q.correctAnswer))] else []
  {
  }

  /** The row visiting `q`, if any, is the record of `q`. */
  lemma LastRowSound(userId: string, q: Question, form: Form)
    ensures forall r :: r in LastRow(userId, q, form) ==> Answered(form, q) && r == Record(userId, form, q)
  {
  }

  /** The row visiting `q` appends is about `q`. */
  lemma LastRowOfQuestion(userId: string, q: Question, form: Form)
    ensures forall r :: r in LastRow(userId, q, form) ==> r.questionId == q.id
  {
  }

  /** The rows one accepted submission appends, question by question in
      catalog order. */
  function NewResponses(userId: string, qs: seq<Question>, form: Form): (r: seq<UserResponse>)
    ensures |r| <= |qs|
  {
    if qs == [] then []
    else
      NewResponses(userId, qs[..|qs| - 1], form) + LastRow(userId, qs[|qs| - 1], form)
  }

  /** Walking the catalog one more question appends at most that
      question's row. */
  lemma NewResponsesStep(userId: string, qs: seq<Question>, form: Form, i: nat)
    requires i < |qs|
    ensures NewResponses(userId, qs[..i + 1], form)
            == NewResponses(userId, qs[..i], form)
               + LastRow(userId, qs[i], form)
  {
    assert qs[..i + 1][..i] == qs[..i];
  }

  /** The catalog positions whose form field is filled. */
  ghost function AnsweredIndices(qs: seq<Question>, form: Form): set<nat> {
    set i: nat | i < |qs| && Answered(form, qs[i])
  }

  /** Each appended row is the record of some answered catalog question: it
      carries the session's user id, that question's id, the raw submitted
      text and its grade. */
  lemma {:induction false} NewResponsesSound(userId: string, qs: seq<Question>, form: Form)
    ensures forall r :: r in NewResponses(userId, qs, form) ==>
              exists q :: q in qs && Answered(form, q) && r == Record(userId, form, q)
  {
    if qs != [] {
      var n := |qs| - 1;
      var prev := NewResponses(userId, qs[..n], form);
      var last := LastRow(userId, qs[n], form);
      assert NewResponses(userId, qs, form) == prev + last;
      NewResponsesSound(userId, qs[..n], form);
      assert forall q :: q in qs[..n] ==> q in qs;
      LastRowSound(userId, qs[n], form);
      assert qs[n] in qs;
    }
  }

  /** Every answered catalog question gets its row. */
  lemma {:induction false} NewResponsesComplete(userId: string, qs: seq<Question>, form: Form)
    ensures forall q :: q in qs && Answered(form, q) ==> Record(userId, form, q) in NewResponses(userId, qs, form)
  {
    if qs != [] {
      var n := |qs| - 1;
      NewResponsesComplete(userId, qs[..n], form);
      assert qs == qs[..n] + [qs[n]];
    }
  }

  /** The rows come in catalog order: with increasing question ids, the
      appended rows have strictly increasing question ids, so no question
      gets two rows from one submission. */
  lemma {:induction false} NewResponsesOrdered(userId: string, qs: seq<Question>, form: Form)
    requires IdsIncreasing(qs)
    ensures forall k1, k2 :: 0 <= k1 < k2 < |NewResponses(userId, qs, form)| ==>
              NewResponses(userId, qs, form)[k1].questionId < NewResponses(userId, qs, form)[k2].questionId
  {
    if qs != [] {
      var n := |qs| - 1;
      var prev := NewResponses(userId, qs[..n], form);
      var last := LastRow(userId, qs[n], form);
      assert NewResponses(userId, qs, form) == prev + last;
      IdsIncreasingPrefix(qs, n);
      NewResponsesOrdered(userId, qs[..n], form);
      NewResponsesBelow(userId, qs[..n], form, qs[n].id);
      LastRowOfQuestion(userId, qs[n], form);
      OrderedAppend(prev, last, qs[n].id);
    }
  }

  /** Rows built from questions whose ids are all below a bound have
      question ids below it too. */
  lemma NewResponsesBelow(userId: string, qs: seq<Question>, form: Form, bound: nat)
    requires forall i :: 0 <= i < |qs| ==> qs[i].id < bound
    ensures forall r :: r in NewResponses(userId, qs, form) ==> r.questionId < bound
  {
    NewResponsesSound(userId, qs, form);
    forall r | r in NewResponses(userId, qs, form) ensures r.questionId < bound {
      var q :| q in qs && Answered(form, q) && r == Record(userId, form, q);
    }
  }

  /** Appending rows whose ids all exceed those before keeps the ids
      increasing. */
  lemma OrderedAppend(prev: seq<UserResponse>, last: seq<UserResponse>, id: nat)
    requires forall k1, k2 :: 0 <= k1 < k2 < |prev| ==> prev[k1].questionId < prev[k2].questionId
    requires forall r :: r in prev ==> r.questionId < id
    requires |last| <= 1 && forall r :: r in last ==> r.questionId == id
    ensures forall k1, k2 :: 0 <= k1 < k2 < |prev + last| ==> (prev + last)[k1].questionId < (prev + last)[k2].questionId
  {
    var r := prev + last;
    forall k1, k2 | 0 <= k1 < k2 < |r| ensures r[k1].questionId < r[k2].questionId {
      if k2 < |prev| {
        assert r[k1] == prev[k1] && r[k2] == prev[k2];
      } else {
        assert r[k2] == last[0] && r[k1] == prev[k1] && prev[k1] in prev;
      }
    }
  }

  /** Every appended row belongs to the session's user. */
  lemma NewResponsesOfUser(userId: string, qs: seq<Question>, form: Form)
    ensures forall k :: 0 <= k < |NewResponses(userId, qs, form)| ==> NewResponses(userId, qs, form)[k].userId == userId
  {
    NewResponsesSound(userId, qs, form);
    var r := NewResponses(userId, qs, form);
    forall k | 0 <= k < |r| ensures r[k].userId == userId {
      assert r[k] in r;
    }
  }

  /** One submission appends exactly as many rows as there are filled
      answer fields for catalog questions. */
  lemma {:induction false} NewResponsesCount(userId: string, qs: seq<Question>, form: Form)
    ensures |NewResponses(userId, qs, form)| == |AnsweredIndices(qs, form)|
  {
    if qs == [] {
      assert AnsweredIndices(qs, form) == {};
    } else {
      var n := |qs| - 1;
      var prev := NewResponses(userId, qs[..n], form);
      var last := LastRow(userId, qs[n], form);
      var before := AnsweredIndices(qs[..n], form);
      assert NewResponses(userId, qs, form) == prev + last;
      NewResponsesCount(userId, qs[..n], form);
      AnsweredIndicesStep(qs, form);
      if Answered(form, qs[n]) {
        assert |last| == 1;
        assert |before + {n}| == |before| + 1;
      } else {
        assert |last| == 0;
        assert before + {} == before;
      }
    }
  }

  lemma AnsweredIndicesStep(qs: seq<Question>, form: Form)
    requires qs != []
    ensures var n := |qs| - 1;
            AnsweredIndices(qs, form)
              == AnsweredIndices(qs[..n], form) + (if Answered(form, qs[n]) then {n} else {})
            && n !in AnsweredIndices(qs[..n], form)
  {
    var n := |qs| - 1;
    forall i: nat | i < n ensures qs[..n][i] == qs[i] { }
  }

  // --------------------------------------------------------- duplicates

  /** How many stored rows a user has for one question. */
  function CountFor(userId: string, questionId: nat, rs: seq<UserResponse>): (c: nat)
    ensures c <= |rs|
  {
    if rs == [] then 0
    else
      var r := rs[|rs| - 1];
      CountFor(userId, questionId, rs[..|rs| - 1])
        + (if r.userId == userId && r.questionId == questionId then 1 else 0)
  }

  lemma {:induction false} CountForAppend(userId: string, questionId: nat, a: seq<UserResponse>, b: seq<UserResponse>)
    ensures CountFor(userId, questionId, a + b) == CountFor(userId, questionId, a) + CountFor(userId, questionId, b)
    decreases |b|
  {
    if b == [] {
      assert a + b == a;
    } else {
      var n := |b| - 1;
      assert (a + b)[..|a + b| - 1] == a + b[..n];
      CountForAppend(userId, questionId, a, b[..n]);
    }
  }

  /** One submission adds exactly one row for an answered question and none
      for an unanswered one, whatever the table held before: rows are
      appended, never replaced. */
  lemma {:induction false} SubmissionAddsOneRowPerAnswer(rs: seq<UserResponse>, userId: string, qs: seq<Question>, form: Form, i: nat)
    requires IdsIncreasing(qs) && i < |qs|
    ensures CountFor(userId, qs[i].id, rs + NewResponses(userId, qs, form))
            == CountFor(userId, qs[i].id, rs) + (if Answered(form, qs[i]) then 1 else 0)
  {
    CountForAppend(userId, qs[i].id, rs, NewResponses(userId, qs, form));
    CountInNewResponses(userId, qs, form, i);
  }

  /** Within one submission a catalog question has one row when answered
      and none otherwise. */
  lemma {:induction false} CountInNewResponses(userId: string, qs: seq<Question>, form: Form, i: nat)
    requires IdsIncreasing(qs) && i < |qs|
    ensures CountFor(userId, qs[i].id, NewResponses(userId, qs, form)) == if Answered(form, qs[i]) then 1 else 0
    decreases |qs|, 1
  {
    if i == |qs| - 1 {
      CountAtLast(userId, qs, form);
    } else {
      CountBeforeLast(userId, qs, form, i);
    }
  }

  lemma {:induction false} CountAtLast(userId: string, qs: seq<Question>, form: Form)
    requires IdsIncreasing(qs) && qs != []
    ensures var q := qs[|qs| - 1];
            CountFor(userId, q.id, NewResponses(userId, qs, form)) == if Answered(form, q) then 1 else 0
  {
    var n := |qs| - 1;
    IdsIncreasingPrefix(qs, n);
    CountAbsent(userId, qs[n].id, qs[..n], form);
    CountForAppend(userId, qs[n].id, NewResponses(userId, qs[..n], form), LastRow(userId, qs[n], form));
    CountForLastRow(userId, qs[n], form, qs[n].id);
  }

  lemma {:induction false} CountBeforeLast(userId: string, qs: seq<Question>, form: Form, i: nat)
    requires IdsIncreasing(qs) && i < |qs| - 1
    ensures CountFor(userId, qs[i].id, NewResponses(userId, qs, form)) == if Answered(form, qs[i]) then 1 else 0
    decreases |qs|, 0
  {
    var n := |qs| - 1;
    var id := qs[i].id;
    var prev := NewResponses(userId, qs[..n], form);
    var last := LastRow(userId, qs[n], form);
    assert NewResponses(userId, qs, form) == prev + last;
    IdsIncreasingPrefix(qs, n);
    assert qs[..n][i] == qs[i];
    CountInNewResponses(userId, qs[..n], form, i);
    assert CountFor(userId, id, prev) == if Answered(form, qs[i]) then 1 else 0;
    CountForLastRow(userId, qs[n], form, id);
    assert qs[n].id != id;
    assert CountFor(userId, id, last) == 0;
    CountForAppend(userId, id, prev, last);
  }

  /** A prefix of an increasing catalog is increasing, and lies below the
      next id. */
  lemma IdsIncreasingPrefix(qs: seq<Question>, n: nat)
    requires IdsIncreasing(qs) && n < |qs|
    ensures IdsIncreasing(qs[..n])
    ensures forall j :: 0 <= j < n ==> qs[..n][j].id < qs[n].id
  {
  }

  lemma CountForLastRow(userId: string, q: Question, form: Form, id: nat)
    ensures CountFor(userId, id, LastRow(userId, q, form)) == if Answered(form, q) && q.id == id then 1 else 0
  {
    var last := LastRow(userId, q, form);
    if last != [] {
      assert last[..0] == [];
    }
  }

  /** A question whose id is larger than every catalog id has no row. */
  lemma {:induction false} CountAbsent(userId: string, id: nat, qs: seq<Question>, form: Form)
    requires forall j :: 0 <= j < |qs| ==> qs[j].id < id
    ensures CountFor(userId, id, NewResponses(userId, qs, form)) == 0
  {
    if qs != [] {
      var n := |qs| - 1;
      var prev := NewResponses(userId, qs[..n], form);
      var last := LastRow(userId, qs[n], form);
      assert NewResponses(userId, qs, form) == prev + last;
      assert forall j :: 0 <= j < n ==> qs[..n][j] == qs[j];
      CountAbsent(userId, id, qs[..n], form);
      assert qs[n].id != id;
      CountForLastRow(userId, qs[n], form, id);
      CountForAppend(userId, id, prev, last);
    }
  }

  /** Submitting the same answers twice in one session leaves two rows for
      each answered question: there is no upsert on (user, question). */
  lemma ResubmissionDuplicates(rs: seq<UserResponse>, userId: string, qs: seq<Question>, form: Form, i: nat)
    requires IdsIncreasing(qs) && i < |qs| && Answered(form, qs[i])
    ensures var once := rs + NewResponses(userId, qs, form);
            CountFor(userId, qs[i].id, once + NewResponses(userId, qs, form))
              == CountFor(userId, qs[i].id, rs) + 2
  {
    SubmissionAddsOneRowPerAnswer(rs, userId, qs, form, i);
    SubmissionAddsOneRowPerAnswer(rs + NewResponses(userId, qs, form), userId, qs, form, i);
  }

  /** The rows of one submission refer to catalog questions. */
  lemma NewResponsesLinked(userId: string, qs: seq<Question>, form: Form)
    ensures Linked(qs, NewResponses(userId, qs, form))
  {
    NewResponsesSound(userId, qs, form);
    var r := NewResponses(userId, qs, form);
    forall k | 0 <= k < |r| ensures Find(qs, r[k].questionId).Some? {
      assert r[k] in r;
    }
  }

  /** A submission keeps every stored row linked to a catalog question. */
  lemma SubmissionLinked(rs: seq<UserResponse>, userId: string, qs: seq<Question>, form: Form)
    requires Linked(qs, rs)
    ensures Linked(qs, rs + NewResponses(userId, qs, form))
  {
    NewResponsesLinked(userId, qs, form);
    LinkedAppend(qs, rs, NewResponses(userId, qs, form));
  }

  // ------------------------------------------------------------- results

  /** A result entry: the question's text and stored answer beside the
      response's raw answer and its stored grade. */
  function Row(q: Question, r: UserResponse): (e: ResultRow)
    ensures e.question == q.text && e.correctAnswer == q.correctAnswer
    ensures e.yourAnswer == r.answer && e.isCorrect == r.isCorrect
  {
    ResultRow(q.text, r.answer, q.correctAnswer, r.isCorrect)
  }

  /** What `quiz_result` shows: the user's rows in stored order, each joined
      with its question. No session user id matches no row. */
  function ResultRows(userId: Option<string>, qs: seq<Question>, rs: seq<UserResponse>): (r: seq<ResultRow>)
    requires Linked(qs, rs)
    ensures |r| <= |rs|
    ensures userId.None? ==> r == []
  {
    if rs == [] then []
    else
      var n := |rs| - 1;
      LinkedPrefix(qs, rs, n);
      ResultRows(userId, qs, rs[..n])
        + (if userId == Some(rs[n].userId) then [Row(Find(qs, rs[n].questionId).value, rs[n])] else [])
  }

  /** The result of a longer table is the result of its first part followed
      by that of the rest: stored order is kept. */
  lemma {:induction false} ResultRowsAppend(userId: Option<string>, qs: seq<Question>, a: seq<UserResponse>, b: seq<UserResponse>)
    requires Linked(qs, a) && Linked(qs, b)
    ensures Linked(qs, a + b)
    ensures ResultRows(userId, qs, a + b) == ResultRows(userId, qs, a) + ResultRows(userId, qs, b)
    decreases |b|
  {
    assert forall k :: 0 <= k < |a + b| ==> (a + b)[k] == if k < |a| then a[k] else b[k - |a|];
    if b == [] {
      assert a + b == a;
    } else {
      var n := |b| - 1;
      assert (a + b)[..|a + b| - 1] == a + b[..n];
      assert forall k :: 0 <= k < n ==> b[..n][k] == b[k];
      ResultRowsAppend(userId, qs, a, b[..n]);
    }
  }

  /** Each entry comes from a stored row of the user, and each stored row of
      the user gives an entry. */
  lemma {:induction false} ResultRowsMembership(userId: Option<string>, qs: seq<Question>, rs: seq<UserResponse>)
    requires Linked(qs, rs)
    ensures forall e :: e in ResultRows(userId, qs, rs) ==>
              exists k :: 0 <= k < |rs| && userId == Some(rs[k].userId)
                          && e == Row(Find(qs, rs[k].questionId).value, rs[k])
    ensures forall k :: 0 <= k < |rs| && userId == Some(rs[k].userId) ==>
              Row(Find(qs, rs[k].questionId).value, rs[k]) in ResultRows(userId, qs, rs)
  {
    if rs != [] {
      var n := |rs| - 1;
      assert forall k :: 0 <= k < n ==> rs[..n][k] == rs[k];
      ResultRowsMembership(userId, qs, rs[..n]);
    }
  }

  /** The positions of the stored rows that belong to `userId`. */
  ghost function RowsOfUser(userId: string, rs: seq<UserResponse>): set<nat> {
    set k: nat | k < |rs| && rs[k].userId == userId
  }

  lemma RowsOfUserStep(userId: string, rs: seq<UserResponse>)
    requires rs != []
    ensures var n := |rs| - 1;
            RowsOfUser(userId, rs)
              == RowsOfUser(userId, rs[..n]) + (if rs[n].userId == userId then {n} else {})
            && n !in RowsOfUser(userId, rs[..n])
  {
    var n := |rs| - 1;
    forall k: nat | k < n ensures rs[..n][k] == rs[k] { }
  }

  /** The result has exactly one entry per stored row of the user, so a
      question answered twice is listed twice. */
  lemma {:induction false} ResultRowsCount(userId: string, qs: seq<Question>, rs: seq<UserResponse>)
    requires Linked(qs, rs)
    ensures |ResultRows(Some(userId), qs, rs)| == |RowsOfUser(userId, rs)|
  {
    if rs == [] {
      assert RowsOfUser(userId, rs) == {};
    } else {
      var n := |rs| - 1;
      assert forall k :: 0 <= k < n ==> rs[..n][k] == rs[k];
      ResultRowsCount(userId, qs, rs[..n]);
      RowsOfUserStep(userId, rs);
    }
  }

  /** Rows of other users do not show: without a session user id the result
      is empty, and appending rows of another user leaves it as it was. */
  lemma {:induction false} ResultRowsIgnoreOthers(userId: Option<string>, qs: seq<Question>, rs: seq<UserResponse>)
    requires Linked(qs, rs)
    requires forall k :: 0 <= k < |rs| ==> userId != Some(rs[k].userId)
    ensures ResultRows(userId, qs, rs) == []
  {
    if rs != [] {
      var n := |rs| - 1;
      assert forall k :: 0 <= k < n ==> rs[..n][k] == rs[k];
      ResultRowsIgnoreOthers(userId, qs, rs[..n]);
    }
  }

  /** After an accepted submission by `userId`, that user's result keeps
      what it showed before and gains, after it, an entry for every answered
      question with the question's text and answer, the raw submitted text
      and its grade. */
  lemma SubmissionInOwnResult(rs: seq<UserResponse>, userId: string, qs: seq<Question>, form: Form, i: nat)
    requires IdsIncreasing(qs) && Linked(qs, rs) && i < |qs| && Answered(form, qs[i])
    ensures Linked(qs, rs + NewResponses(userId, qs, form))
    ensures var raw := form[FieldName(qs[i].id)];
            var before := ResultRows(Some(userId), qs, rs);
            var after := ResultRows(Some(userId), qs, rs + NewResponses(userId, qs, form));
            |before| <= |after| && after[..|before|] == before
            && ResultRow(qs[i].text, raw, qs[i].correctAnswer, IsCorrect(raw, qs[i].correctAnswer)) in after[|before|..]
  {
    var added := NewResponses(userId, qs, form);
    AnsweredInOwnRows(userId, qs, form, i);
    ResultRowsAppend(Some(userId), qs, rs, added);
    var before := ResultRows(Some(userId), qs, rs);
    var tail := ResultRows(Some(userId), qs, added);
    assert ResultRows(Some(userId), qs, rs + added) == before + tail;
    assert (before + tail)[..|before|] == before && (before + tail)[|before|..] == tail;
  }

  /** The rows of one submission, joined with the catalog, list each
      answered question with its raw answer and grade. */
  lemma AnsweredInOwnRows(userId: string, qs: seq<Question>, form: Form, i: nat)
    requires IdsIncreasing(qs) && i < |qs| && Answered(form, qs[i])
    ensures Linked(qs, NewResponses(userId, qs, form))
    ensures var raw := form[FieldName(qs[i].id)];
            ResultRow(qs[i].text, raw, qs[i].correctAnswer, IsCorrect(raw, qs[i].correctAnswer))
              in ResultRows(Some(userId), qs, NewResponses(userId, qs, form))
  {
    var added := NewResponses(userId, qs, form);
    NewResponsesLinked(userId, qs, form);
    NewResponsesComplete(userId, qs, form);
    assert qs[i] in qs;
    var rec := Record(userId, form, qs[i]);
    var k :| 0 <= k < |added| && added[k] == rec;
    FindById(qs, i);
    ResultRowsMembership(Some(userId), qs, added);
    assert Row(qs[i], rec) in ResultRows(Some(userId), qs, added);
  }

  /** A submission by `userId` leaves every other user's result unchanged. */
  lemma SubmissionInvisibleToOthers(rs: seq<UserResponse>, userId: string, qs: seq<Question>, form: Form, other: Option<string>)
    requires Linked(qs, rs) && other != Some(userId)
    ensures Linked(qs, rs + NewResponses(userId, qs, form))
    ensures ResultRows(other, qs, rs + NewResponses(userId, qs, form)) == ResultRows(other, qs, rs)
  {
    var added := NewResponses(userId, qs, form);
    NewResponsesLinked(userId, qs, form);
    ResultRowsAppend(other, qs, rs, added);
    NewResponsesOfUser(userId, qs, form);
    ResultRowsIgnoreOthers(other, qs, added);
    assert ResultRows(other, qs, rs) + [] == ResultRows(other, qs, rs);
  }

  // ------------------------------------------------------------ the page

  /** What a GET of `quiz_page` answers. */
  datatype PageOutcome =
    | RedirectToStart
    | RedirectToSubmit
    | ShowTimer(remaining: int, questions: seq<Question>)

  function QuizPage(session: Option<Session>, now: int, qs: seq<Question>): (p: PageOutcome)
    ensures p.RedirectToStart? <==> session.None?
    ensures p.ShowTimer? <==> session.Some? && now < Deadline(session.value)
    ensures p.ShowTimer? ==>
              p.remaining > 0 && now + p.remaining == Deadline(session.value) && p.questions == qs
  {
    match CheckSession(session, now)
    case NoSession => RedirectToStart
    case Expired => RedirectToSubmit
    case Open(_, remaining) => ShowTimer(remaining, qs)
  }

  /** Which path a POST to `quiz_page` takes. The source answers `TooLate`
      and `Recorded` with the same redirect to `quiz_submit`; the outcome
      names the path, whether answers were recorded, not a different HTTP
      answer. */
  datatype SubmitOutcome = NotStarted | TooLate | Recorded

  // ------------------------------------------------------------ the store

  class QuizDatabase {
    var questions: seq<Question>
    var responses: seq<UserResponse>

    ghost predicate Valid()
      reads this
    {
      IdsIncreasing(questions) && Linked(questions, responses)
    }

    constructor ()
      ensures Valid() && questions == [] && responses == []
    {
      questions := [];
      responses := [];
    }

    /** `add_question` (POST): append a question only when both fields are
        filled. */
    method AddQuestion(text: Option<string>, correctAnswer: Option<string>) returns (added: bool)
      requires Valid()
      modifies this
      ensures Valid()
      ensures added <==> Filled(text) && Filled(correctAnswer)
      ensures questions == if added
                           then old(questions) + [Question(NextId(old(questions)), text.value, correctAnswer.value)]
                           else old(questions)
      ensures responses == old(responses)
    {
      added := false;
      if Filled(text) && Filled(correctAnswer) {
        var q := Question(NextId(questions), text.value, correctAnswer.value);
        forall k | 0 <= k < |responses| ensures Find(questions + [q], responses[k].questionId).Some? {
          FindAfterAppend(questions, q, responses[k].questionId);
        }
        questions := questions + [q];
        added := true;
      }
    }

    /** `quiz_page` (POST): with no session nothing is written; after the
        deadline nothing is written; otherwise the answers are recorded. */
    method SubmitAnswers(session: Option<Session>, now: int, form: Form) returns (outcome: SubmitOutcome)
      requires Valid()
      modifies this
      ensures Valid()
      ensures questions == old(questions)
      ensures outcome == match CheckSession(session, now)
                         case NoSession => NotStarted
                         case Expired => TooLate
                         case Open(_, _) => Recorded
      ensures responses == if outcome.Recorded?
                           then old(responses) + NewResponses(session.value.userId, questions, form)
                           else old(responses)
    {
      var gate := CheckSession(session, now);
      if gate.NoSession? {
        return NotStarted;
      }
      if gate.Expired? {
        return TooLate;
      }
      RecordAnswers(gate.userId, form);
      outcome := Recorded;
    }

    /** The loop of `quiz_page` (POST): walk the catalog and add a graded
        row for each filled answer field to the pending rows, then commit
        them to the table at once. */
    method RecordAnswers(userId: string, form: Form)
      requires Valid()
      modifies this
      ensures Valid()
      ensures questions == old(questions)
      ensures responses == old(responses) + NewResponses(userId, questions, form)
    {
      var qs := questions;
      var pending: seq<UserResponse> := [];
      for i := 0 to |qs|
        invariant unchanged(this) && questions == qs
        invariant pending == NewResponses(userId, qs[..i], form)
      {
        var q := qs[i];
        var answer := Field(form, FieldName(q.id));
        NewResponsesStep(userId, qs, form, i);
        LastRowOfField(userId, q, form);
        if Filled(answer) {
          var isCorrect := IsCorrect(answer.value, q.correctAnswer);
          var response := UserResponse(userId, q.id, answer.value, isCorrect);
          pending := pending + [response];
        }
      }
      assert qs[..|qs|] == qs;
      SubmissionLinked(responses, userId, qs, form);
      responses := responses + pending;
    }

    /** `quiz_result`: the session user's rows in stored order, joined with
        their questions. Nothing is written. */
    method Results(userId: Option<string>) returns (rows: seq<ResultRow>)
      requires Valid()
      ensures rows == ResultRows(userId, questions, responses)
    {
      rows := [];
      var i := 0;
      while i < |responses|
        invariant 0 <= i <= |responses|
        invariant Linked(questions, responses[..i])
        invariant rows == ResultRows(userId, questions, responses[..i])
      {
        var r := responses[i];
        if userId == Some(r.userId) {
          var q := Find(questions, r.questionId);
          rows := rows + [Row(q.value, r)];
        }
        assert responses[..i + 1][..i] == responses[..i];
        i := i + 1;
      }
      assert responses[..i] == responses;
    }
  }

}
