/**
 * The database the survey app works against: the four tables of surveys/models.py (and
 * the option table of migration 0005) with their constraints, and the ORM operations the
 * views and the data migrations perform on them (`update_or_create`, `create`,
 * `filter(...).delete()`, `bulk_create`) together with the cascade and protect rules of
 * the foreign keys.
 *
 * The option table is keyed by its unique (question, value) pair, so that constraint holds
 * by construction; the auto-increment key `id` is kept in each row and is fresh for every
 * created row. The answer table is a sequence, and "one answer per (response, question)"
 * is an invariant the operations keep.
 */
module Store {
  import opened Wrappers
  import opened Builtins
  import opened Models

  /** The unique (question, value) pair of an option row. */
  datatype OptionKey = OptionKey(questionId: nat, value: string)

  function KeyOf(o: QuestionOption): OptionKey {
    OptionKey(o.questionId, o.value)
  }

  /** The fields `update_or_create(id=..., defaults=data)` writes into a question row. */
  datatype QuestionSeed = QuestionSeed(
    id: nat,
    category: string,
    prompt: string,
    targetAudience: TargetAudience,
    note: string)

  /** The option table: the rows by their unique key, and the next auto-increment id. */
  datatype OptionTable = OptionTable(rows: map<OptionKey, QuestionOption>, nextId: nat)

  // ---------------------------------------------------------------------------
  // Table constraints

  /** Each question row is stored under its own primary key. */
  predicate QuestionsKeyed(qs: map<nat, Question>) {
    forall id :: id in qs ==> qs[id].id == id
  }

  /** Each option row sits under its own (question, value) key. */
  predicate OptionsKeyed(rows: map<OptionKey, QuestionOption>) {
    forall k :: k in rows ==> KeyOf(rows[k]) == k
  }

  /** No two option rows share a primary key, and every key is below the next auto-increment id. */
  predicate OptionIdsFresh(t: OptionTable) {
    && (forall k :: k in t.rows ==> t.rows[k].id < t.nextId)
    && (forall k1, k2 :: k1 in t.rows && k2 in t.rows && t.rows[k1].id == t.rows[k2].id ==> k1 == k2)
  }

  /** Every option belongs to an existing question. */
  predicate OptionsReferenceQuestions(rows: map<OptionKey, QuestionOption>, qs: map<nat, Question>) {
    forall k :: k in rows ==> k.questionId in qs
  }

  predicate OptionTableValid(t: OptionTable, qs: map<nat, Question>) {
    OptionsKeyed(t.rows) && OptionIdsFresh(t) && OptionsReferenceQuestions(t.rows, qs)
  }

  /** `unique_together = ("response", "question")`. */
  predicate AnswersUnique(answers: seq<SurveyAnswer>) {
    forall i, j :: 0 <= i < j < |answers| ==>
      answers[i].responseId != answers[j].responseId || answers[i].questionId != answers[j].questionId
  }

  /** Both foreign keys of every answer point at existing rows. */
  predicate AnswersReference(answers: seq<SurveyAnswer>, responses: map<nat, SurveyResponse>, qs: map<nat, Question>) {
    forall i :: 0 <= i < |answers| ==> answers[i].responseId in responses && answers[i].questionId in qs
  }

  predicate AnswersValid(answers: seq<SurveyAnswer>, responses: map<nat, SurveyResponse>, qs: map<nat, Question>) {
    AnswersUnique(answers) && AnswersReference(answers, responses, qs)
  }

  /** Some answer refers to one of the questions `ids` (which makes deleting them a protected error). */
  predicate AnswersMention(answers: seq<SurveyAnswer>, ids: set<nat>) {
    exists i :: 0 <= i < |answers| && answers[i].questionId in ids
  }

  // ---------------------------------------------------------------------------
  // What each ORM operation does to the tables

  /** The row `update_or_create(id=s.id, defaults=s)` leaves: the seed's fields; `is_active` is kept, and defaults to true on creation. */
  function SeededQuestion(existing: Option<Question>, s: QuestionSeed): (q: Question)
    ensures && q.id == s.id && q.category == s.category && q.prompt == s.prompt
            && q.targetAudience == s.targetAudience && q.note == s.note
    ensures q.isActive <==> (existing.None? || existing.value.isActive)
  {
    Question(s.id, s.category, s.prompt, s.targetAudience, s.note,
      match existing case Some(e) => e.isActive case None => true)
  }

  function Lookup(qs: map<nat, Question>, id: nat): Option<Question> {
    if id in qs then Some(qs[id]) else None
  }

  /** The question table after one `Question.objects.update_or_create(id=s.id, defaults=s)`. */
  function UpsertQuestionRow(qs: map<nat, Question>, s: QuestionSeed): map<nat, Question> {
    qs[s.id := SeededQuestion(Lookup(qs, s.id), s)]
  }

  /**
   * The option table after one `QuestionOption.objects.update_or_create(question=q, value=v,
   * defaults={"label": l, "order": o})`: the existing row is updated in place (same id),
   * otherwise a row with a fresh id is created. Rows under other keys are untouched.
   */
  function UpsertOptionRow(t: OptionTable, qid: nat, value: string, labelText: string, order: nat): (r: OptionTable)
    ensures var k := OptionKey(qid, value);
      && k in r.rows && r.rows[k].labelText == labelText && r.rows[k].order == order
      && (k in t.rows ==> r.rows[k] == t.rows[k].(labelText := labelText, order := order) && r.nextId == t.nextId)
      && (k !in t.rows ==> r.rows[k] == QuestionOption(t.nextId, qid, value, labelText, order) && r.nextId == t.nextId + 1)
      && r.rows.Keys == t.rows.Keys + {k}
      && (forall k' :: k' in t.rows && k' != k ==> r.rows[k'] == t.rows[k'])
  {
    var k := OptionKey(qid, value);
    if k in t.rows then
      OptionTable(t.rows[k := t.rows[k].(labelText := labelText, order := order)], t.nextId)
    else
      OptionTable(t.rows[k := QuestionOption(t.nextId, qid, value, labelText, order)], t.nextId + 1)
  }

  /** An upsert under an existing question keeps the option table's constraints. */
  lemma UpsertOptionRowValid(t: OptionTable, qs: map<nat, Question>, qid: nat, value: string, labelText: string, order: nat)
    requires OptionTableValid(t, qs) && qid in qs
    ensures OptionTableValid(UpsertOptionRow(t, qid, value, labelText, order), qs)
  {
    var r, k := UpsertOptionRow(t, qid, value, labelText, order), OptionKey(qid, value);
    assert OptionsKeyed(r.rows) by {
      forall k' | k' in r.rows ensures KeyOf(r.rows[k']) == k' {
        if k' != k { assert k' in t.rows; }
      }
    }
    assert forall k' :: k' in r.rows ==> r.rows[k'].id < r.nextId by {
      forall k' | k' in r.rows ensures r.rows[k'].id < r.nextId {
        if k' != k { assert k' in t.rows; }
      }
    }
    forall k' | k' in r.rows && k' != k ensures r.rows[k'].id != r.rows[k].id {
      assert k' in t.rows && r.rows[k'] == t.rows[k'];
    }
    forall k1, k2 | k1 in r.rows && k2 in r.rows && r.rows[k1].id == r.rows[k2].id ensures k1 == k2 {
      if k1 != k && k2 != k {
        assert t.rows[k1].id == t.rows[k2].id;
      }
    }
    assert OptionsReferenceQuestions(r.rows, qs) by {
      forall k' | k' in r.rows ensures k'.questionId in qs {
        if k' != k { assert k' in t.rows; }
      }
    }
  }

  /** `QuestionOption.objects.create(...)`: a new row with a fresh id, or `None` (an IntegrityError) when the (question, value) pair is taken. */
  function CreateOptionRow(t: OptionTable, qid: nat, value: string, labelText: string, order: nat): (r: Option<OptionTable>)
    ensures r.None? <==> OptionKey(qid, value) in t.rows
    ensures r.Some? ==> r.value == UpsertOptionRow(t, qid, value, labelText, order)
  {
    if OptionKey(qid, value) in t.rows then None
    else Some(UpsertOptionRow(t, qid, value, labelText, order))
  }

  /** `QuestionOption.objects.filter(question_id__in=qids).delete()`. */
  function WithoutOptionsOf(rows: map<OptionKey, QuestionOption>, qids: set<nat>): (r: map<OptionKey, QuestionOption>)
    ensures forall k :: k in r <==> k in rows && k.questionId !in qids
    ensures forall k :: k in r ==> r[k] == rows[k]
  {
    map k | k in rows && k.questionId !in qids :: rows[k]
  }

  /** `QuestionOption.objects.filter(question=q).exclude(value__in=keep).delete()`. */
  function WithoutOptionsExcept(rows: map<OptionKey, QuestionOption>, qid: nat, keep: set<string>): (r: map<OptionKey, QuestionOption>)
    ensures forall k :: k in r <==> k in rows && (k.questionId != qid || k.value in keep)
    ensures forall k :: k in r ==> r[k] == rows[k]
  {
    map k | k in rows && (k.questionId != qid || k.value in keep) :: rows[k]
  }

  /** The answers left after deleting the responses `ids`: `on_delete=CASCADE` removes theirs. */
  function AnswersNotOf(answers: seq<SurveyAnswer>, ids: set<nat>): (r: seq<SurveyAnswer>)
    ensures forall a :: a in r <==> a in answers && a.responseId !in ids
    ensures |r| <= |answers|
  {
    if |answers| == 0 then []
    else
      var rest := AnswersNotOf(answers[..|answers| - 1], ids);
      var last := answers[|answers| - 1];
      assert answers == answers[..|answers| - 1] + [last];
      if last.responseId in ids then rest else rest + [last]
  }

  /** Keeping a subsequence of the answers keeps them unique and keeps their references. */
  lemma {:induction false} AnswersNotOfValid(answers: seq<SurveyAnswer>, ids: set<nat>,
                                             responses: map<nat, SurveyResponse>, qs: map<nat, Question>)
    requires AnswersValid(answers, responses, qs)
    ensures AnswersValid(AnswersNotOf(answers, ids), responses - ids, qs)
  {
    if |answers| > 0 {
      var front := answers[..|answers| - 1];
      var last := answers[|answers| - 1];
      assert forall i :: 0 <= i < |front| ==> front[i] == answers[i];
      AnswersNotOfValid(front, ids, responses, qs);
      var rest := AnswersNotOf(front, ids);
      if last.responseId !in ids {
        forall i | 0 <= i < |rest|
          ensures rest[i].responseId != last.responseId || rest[i].questionId != last.questionId
        {
          assert rest[i] in front;
          var j :| 0 <= j < |front| && front[j] == rest[i];
          assert answers[j] == rest[i];
        }
      }
    }
  }

  // ---------------------------------------------------------------------------
  // The database

  class Database {
    var questions: map<nat, Question>
    var options: map<OptionKey, QuestionOption>
    var nextOptionId: nat
    var responses: map<nat, SurveyResponse>
    var nextResponseId: nat
    var answers: seq<SurveyAnswer>

    function OptionTableOf(): OptionTable
      reads this
    {
      OptionTable(options, nextOptionId)
    }

    /** Every constraint of the schema holds. */
    ghost predicate Valid()
      reads this
    {
      && QuestionsKeyed(questions)
      && OptionTableValid(OptionTableOf(), questions)
      && (forall id :: id in responses ==> responses[id].id == id && id < nextResponseId)
      && AnswersValid(answers, responses, questions)
    }

    /** An empty database. */
    constructor ()
      ensures Valid()
      ensures questions == map[] && options == map[] && responses == map[] && answers == []
    {
      questions, options, nextOptionId := map[], map[], 0;
      responses, nextResponseId, answers := map[], 0, [];
    }

    /** `Question.objects.update_or_create(id=s.id, defaults=s)`. */
    method UpsertQuestion(s: QuestionSeed)
      requires Valid()
      modifies this
      ensures Valid()
      ensures questions == UpsertQuestionRow(old(questions), s)
      ensures OptionTableOf() == old(OptionTableOf())
      ensures responses == old(responses) && nextResponseId == old(nextResponseId) && answers == old(answers)
    {
      questions := UpsertQuestionRow(questions, s);
    }

    /** `QuestionOption.objects.update_or_create(question=q, value=v, defaults={label, order})` for an existing question `q`. */
    method UpsertOption(qid: nat, value: string, labelText: string, order: nat)
      requires Valid() && qid in questions
      modifies this
      ensures Valid()
      ensures OptionTableOf() == UpsertOptionRow(old(OptionTableOf()), qid, value, labelText, order)
      ensures questions == old(questions)
      ensures responses == old(responses) && nextResponseId == old(nextResponseId) && answers == old(answers)
    {
      UpsertOptionRowValid(OptionTableOf(), questions, qid, value, labelText, order);
      var t := UpsertOptionRow(OptionTableOf(), qid, value, labelText, order);
      options, nextOptionId := t.rows, t.nextId;
    }

    /** `QuestionOption.objects.create(...)` for an existing question; `ok` is false on an IntegrityError, which leaves the table as it was. */
    method CreateOption(qid: nat, value: string, labelText: string, order: nat) returns (ok: bool)
      requires Valid() && qid in questions
      modifies this
      ensures Valid()
      ensures ok <==> CreateOptionRow(old(OptionTableOf()), qid, value, labelText, order).Some?
      ensures ok ==> OptionTableOf() == CreateOptionRow(old(OptionTableOf()), qid, value, labelText, order).value
      ensures !ok ==> OptionTableOf() == old(OptionTableOf())
      ensures questions == old(questions)
      ensures responses == old(responses) && nextResponseId == old(nextResponseId) && answers == old(answers)
    {
      var r := CreateOptionRow(OptionTableOf(), qid, value, labelText, order);
      ok := r.Some?;
      if ok {
        UpsertOptionRowValid(OptionTableOf(), questions, qid, value, labelText, order);
        options, nextOptionId := r.value.rows, r.value.nextId;
      }
    }

    /** `QuestionOption.objects.filter(question_id__in=qids).delete()`. */
    method DeleteOptionsOf(qids: set<nat>)
      requires Valid()
      modifies this
      ensures Valid()
      ensures options == WithoutOptionsOf(old(options), qids) && nextOptionId == old(nextOptionId)
      ensures questions == old(questions)
      ensures responses == old(responses) && nextResponseId == old(nextResponseId) && answers == old(answers)
    {
      options := WithoutOptionsOf(options, qids);
    }

    /** `QuestionOption.objects.filter(question=q).exclude(value__in=keep).delete()`. */
    method DeleteOptionsExcept(qid: nat, keep: set<string>)
      requires Valid()
      modifies this
      ensures Valid()
      ensures options == WithoutOptionsExcept(old(options), qid, keep) && nextOptionId == old(nextOptionId)
      ensures questions == old(questions)
      ensures responses == old(responses) && nextResponseId == old(nextResponseId) && answers == old(answers)
    {
      options := WithoutOptionsExcept(options, qid, keep);
    }

    /**
     * `Question.objects.filter(id__in=ids).delete()`. The options of the deleted questions go
     * with them (CASCADE); if any answer refers to one of them the whole delete is refused
     * (PROTECT raises ProtectedError before anything is deleted) and `deleted` is false.
     */
    method DeleteQuestions(ids: set<nat>) returns (deleted: bool)
      requires Valid()
      modifies this
      ensures Valid()
      ensures deleted <==> !AnswersMention(old(answers), ids)
      ensures deleted ==> questions == old(questions) - ids && options == WithoutOptionsOf(old(options), ids)
      ensures !deleted ==> questions == old(questions) && options == old(options)
      ensures nextOptionId == old(nextOptionId)
      ensures responses == old(responses) && nextResponseId == old(nextResponseId) && answers == old(answers)
    {
      deleted := forall i :: 0 <= i < |answers| ==> answers[i].questionId !in ids;
      if deleted {
        questions := questions - ids;
        options := WithoutOptionsOf(options, ids);
      }
    }

    /** Deleting responses: their answers go with them (CASCADE). */
    method DeleteResponses(ids: set<nat>)
      requires Valid()
      modifies this
      ensures Valid()
      ensures responses == old(responses) - ids && answers == AnswersNotOf(old(answers), ids)
      ensures questions == old(questions) && OptionTableOf() == old(OptionTableOf())
      ensures nextResponseId == old(nextResponseId)
    {
      AnswersNotOfValid(answers, ids, responses, questions);
      responses := responses - ids;
      answers := AnswersNotOf(answers, ids);
    }

    /** `SurveyResponse.objects.create(...)`: a new row with a fresh id and `created_at` set to `now`. */
    method CreateResponse(name: string, email: string, role: RespondentRole, now: Timestamp) returns (r: SurveyResponse)
      requires Valid()
      modifies this
      ensures Valid()
      ensures r == SurveyResponse(old(nextResponseId), name, email, role, Some(now))
      ensures r.id !in old(responses)
      ensures responses == old(responses)[r.id := r] && nextResponseId == old(nextResponseId) + 1
      ensures questions == old(questions) && OptionTableOf() == old(OptionTableOf()) && answers == old(answers)
    {
      r := SurveyResponse(nextResponseId, name, email, role, Some(now));
      responses := responses[r.id := r];
      nextResponseId := nextResponseId + 1;
    }

    /**
     * `SurveyAnswer.objects.bulk_create(batch)`: one INSERT for the whole batch; it fails as a
     * whole (IntegrityError, `ok` false, nothing inserted) when a row would break a foreign key
     * or the (response, question) uniqueness.
     */
    method BulkCreateAnswers(batch: seq<SurveyAnswer>) returns (ok: bool)
      requires Valid()
      modifies this
      ensures Valid()
      ensures ok <==> AnswersValid(old(answers) + batch, old(responses), old(questions))
      ensures answers == if ok then old(answers) + batch else old(answers)
      ensures questions == old(questions) && OptionTableOf() == old(OptionTableOf())
      ensures responses == old(responses) && nextResponseId == old(nextResponseId)
    {
      ok := AnswersValid(answers + batch, responses, questions);
      if ok {
        answers := answers + batch;
      }
    }

    /**
     * Puts the catalog tables back as they were when a data migration started: a migration runs
     * in one transaction, which an exception rolls back. The auto-increment counter is not
     * rolled back, so created ids stay fresh.
     */
    method RestoreCatalog(qs: map<nat, Question>, rows: map<OptionKey, QuestionOption>)
      requires Valid()
      requires QuestionsKeyed(qs) && OptionTableValid(OptionTable(rows, nextOptionId), qs)
      requires AnswersReference(answers, responses, qs)
      modifies this
      ensures Valid()
      ensures questions == qs && options == rows && nextOptionId == old(nextOptionId)
      ensures responses == old(responses) && nextResponseId == old(nextResponseId) && answers == old(answers)
    {
      questions, options := qs, rows;
    }
  }

  // ---------------------------------------------------------------------------
  // The results of the queries the views and the export run

  predicate IncreasingIds(list: seq<Question>) {
    forall i, j :: 0 <= i < j < |list| ==> list[i].id < list[j].id
  }

  /** `list` is `Question.objects.filter(is_active=True).order_by("id")` over the table `qs`. */
  ghost predicate IsActiveQuestionList(qs: map<nat, Question>, list: seq<Question>) {
    && IncreasingIds(list)
    && (forall i :: 0 <= i < |list| ==> list[i].id in qs && qs[list[i].id] == list[i] && list[i].isActive)
    && (forall id :: id in qs && qs[id].isActive ==> exists i :: 0 <= i < |list| && list[i].id == id)
  }

  /** A non-empty finite set of ids has a least element. */
  lemma {:induction false} Least(s: set<nat>) returns (m: nat)
    requires s != {}
    ensures m in s && forall y :: y in s ==> m <= y
  {
    var x :| x in s;
    var rest := s - {x};
    if rest == {} {
      m := x;
      assert s == rest + {x};
    } else {
      var r := Least(rest);
      m := if x < r then x else r;
      assert forall y :: y in s ==> y == x || y in rest;
    }
  }

  /**
   * The loop state of the active-questions query: `list` holds, by ascending id, the active rows
   * whose ids have left `remaining`, and every id still remaining is above them.
   */
  ghost predicate Collected(qs: map<nat, Question>, list: seq<Question>, remaining: set<nat>) {
    && remaining <= qs.Keys
    && IncreasingIds(list)
    && (forall i :: 0 <= i < |list| ==>
          list[i].id in qs && qs[list[i].id] == list[i] && list[i].isActive && list[i].id !in remaining)
    && (forall i, r :: 0 <= i < |list| && r in remaining ==> list[i].id < r)
    && (forall id :: id in qs && id !in remaining && qs[id].isActive ==> exists i :: 0 <= i < |list| && list[i].id == id)
  }

  /** Taking the least remaining id, and keeping its row when active, preserves the loop state. */
  lemma CollectStep(qs: map<nat, Question>, list: seq<Question>, remaining: set<nat>, m: nat)
    requires QuestionsKeyed(qs) && Collected(qs, list, remaining)
    requires m in remaining && forall x :: x in remaining ==> m <= x
    ensures Collected(qs, if qs[m].isActive then list + [qs[m]] else list, remaining - {m})
  {
    if qs[m].isActive {
      var next := list + [qs[m]];
      CollectOrdered(qs, list, remaining, m, next);
      CollectCovers(qs, list, remaining, m, next);
    }
  }

  /** The row of the least remaining id extends the list in id order. */
  lemma CollectOrdered(qs: map<nat, Question>, list: seq<Question>, remaining: set<nat>, m: nat, next: seq<Question>)
    requires QuestionsKeyed(qs) && Collected(qs, list, remaining)
    requires m in remaining && (forall x :: x in remaining ==> m <= x) && qs[m].isActive && next == list + [qs[m]]
    ensures IncreasingIds(next)
    ensures forall i :: 0 <= i < |next| ==>
      next[i].id in qs && qs[next[i].id] == next[i] && next[i].isActive && next[i].id !in remaining - {m}
    ensures forall i, r :: 0 <= i < |next| && r in remaining - {m} ==> next[i].id < r
  {
    assert forall i :: 0 <= i < |list| ==> next[i] == list[i];
    assert next[|next| - 1] == qs[m];
  }

  /** Every active id that has left `remaining` is in the extended list. */
  lemma CollectCovers(qs: map<nat, Question>, list: seq<Question>, remaining: set<nat>, m: nat, next: seq<Question>)
    requires QuestionsKeyed(qs) && Collected(qs, list, remaining)
    requires m in remaining && qs[m].isActive && next == list + [qs[m]]
    ensures forall id :: id in qs && id !in remaining - {m} && qs[id].isActive ==> exists i :: 0 <= i < |next| && next[i].id == id
  {
    forall id | id in qs && id !in remaining - {m} && qs[id].isActive
      ensures exists i :: 0 <= i < |next| && next[i].id == id
    {
      if id == m {
        assert next[|next| - 1].id == m;
      } else {
        var i :| 0 <= i < |list| && list[i].id == id;
        assert next[i] == list[i];
      }
    }
  }

  /** Runs the active-questions query: the active rows of `qs`, by ascending id. */
  method ActiveQuestions(qs: map<nat, Question>) returns (list: seq<Question>)
    requires QuestionsKeyed(qs)
    ensures IsActiveQuestionList(qs, list)
  {
    var remaining := qs.Keys;
    list := [];
    while remaining != {}
      invariant Collected(qs, list, remaining)
      decreases remaining
    {
      ghost var least := Least(remaining);
      var m :| m in remaining && forall x :: x in remaining ==> m <= x;
      CollectStep(qs, list, remaining, m);
      if qs[m].isActive {
        list := list + [qs[m]];
      }
      remaining := remaining - {m};
    }
  }

  /** In a list sorted by increasing id, every element before the last has a smaller id than the last. */
  lemma BelowLast(b: seq<Question>, x: Question)
    requires IncreasingIds(b) && |b| > 0 && x in b
    ensures x.id <= b[|b| - 1].id
    ensures x.id == b[|b| - 1].id ==> x == b[|b| - 1]
    ensures x.id < b[|b| - 1].id ==> x in b[..|b| - 1]
  {
    var m :| 0 <= m < |b| && b[m] == x;
    if m < |b| - 1 {
      assert b[..|b| - 1][m] == x;
    }
  }

  /** With the same last element, what precedes it in `a` precedes it in `b`. */
  lemma FrontIn(a: seq<Question>, b: seq<Question>, af: seq<Question>, bf: seq<Question>)
    requires IncreasingIds(a) && IncreasingIds(b) && |a| > 0 && |b| > 0 && a[|a| - 1] == b[|b| - 1]
    requires af == a[..|a| - 1] && bf == b[..|b| - 1]
    requires forall z :: z in a ==> z in b
    ensures forall z :: z in af ==> z in bf
  {
    forall z | z in af ensures z in bf {
      var i :| 0 <= i < |af| && af[i] == z;
      assert a[i] == z && z.id < a[|a| - 1].id;
      BelowLast(b, z);
    }
  }

  /** Dropping the last element keeps the ids increasing. */
  lemma IncreasingFront(a: seq<Question>, af: seq<Question>)
    requires IncreasingIds(a) && |a| > 0 && af == a[..|a| - 1]
    ensures IncreasingIds(af)
  {
    forall i, j | 0 <= i < j < |af| ensures af[i].id < af[j].id {
      assert af[i] == a[i] && af[j] == a[j];
    }
  }

  /** Two lists that hold each other's elements are empty together. */
  lemma EmptyTogether(a: seq<Question>, b: seq<Question>)
    requires forall z :: z in a ==> z in b
    requires forall z :: z in b ==> z in a
    ensures |a| == 0 <==> |b| == 0
  {
    if |a| > 0 {
      assert a[0] in a;
    }
    if |b| > 0 {
      assert b[0] in b;
    }
  }

  /** Two lists sorted by strictly increasing id that hold the same questions are the same list. */
  lemma {:induction false} SortedListsEqual(a: seq<Question>, b: seq<Question>)
    requires IncreasingIds(a) && IncreasingIds(b)
    requires forall z :: z in a ==> z in b
    requires forall z :: z in b ==> z in a
    ensures a == b
    decreases |a| + |b|
  {
    EmptyTogether(a, b);
    if |a| > 0 {
      var x, y := a[|a| - 1], b[|b| - 1];
      var af, bf := a[..|a| - 1], b[..|b| - 1];
      assert x in a && y in b;
      BelowLast(b, x);
      BelowLast(a, y);
      FrontIn(a, b, af, bf);
      FrontIn(b, a, bf, af);
      IncreasingFront(a, af);
      IncreasingFront(b, bf);
      SortedListsEqual(af, bf);
      assert a == af + [x] && b == bf + [y];
    }
  }

  /** The active-questions query has exactly one possible result. */
  lemma ActiveListUnique(qs: map<nat, Question>, a: seq<Question>, b: seq<Question>)
    requires IsActiveQuestionList(qs, a) && IsActiveQuestionList(qs, b)
    ensures a == b
  {
    forall z | z in a ensures z in b {
      var i :| 0 <= i < |a| && a[i] == z;
      assert z.id in qs && qs[z.id] == z && z.isActive;
      var j :| 0 <= j < |b| && b[j].id == z.id;
    }
    forall z | z in b ensures z in a {
      var j :| 0 <= j < |b| && b[j] == z;
      assert z.id in qs && qs[z.id] == z && z.isActive;
      var i :| 0 <= i < |a| && a[i].id == z.id;
    }
    SortedListsEqual(a, b);
  }


  /** `opts` is `question.options.all()` for question `qid`: each of its rows exactly once. */
  ghost predicate IsOptionSnapshot(rows: map<OptionKey, QuestionOption>, qid: nat, opts: seq<QuestionOption>) {
    && (forall i :: 0 <= i < |opts| ==> KeyOf(opts[i]) in rows && rows[KeyOf(opts[i])] == opts[i] && opts[i].questionId == qid)
    && (forall k :: k in rows && k.questionId == qid ==> exists i :: 0 <= i < |opts| && KeyOf(opts[i]) == k)
    && (forall i, j :: 0 <= i < j < |opts| ==> KeyOf(opts[i]) != KeyOf(opts[j]))
  }
}
