/**
 * The survey view (surveys/views.py, `survey_form`): on a valid submission it derives the
 * respondent's role, creates one response and then one answer per answered question (an
 * option question stores the chosen option's label), inserted in a single batch; and it pairs
 * each question with its form field for rendering.
 *
 * The request, the templates and the message framework are left out; the questions the view
 * queried, the options prefetched with them, the clock and the email validator are parameters.
 */
module Views {
  import opened Wrappers
  import opened Builtins
  import opened Models
  import opened Store
  import opened Forms

  /** The answers to the first question that mark a respondent as a builder. */
  const BuilderAnswers: seq<string> := ["developer", "founder"]

  /** The field of the classification question, question 1. */
  const ClassificationField: string := AnswerFieldName(1)

  // ---------------------------------------------------------------------------
  // Role derivation

  /**
   * The role the view stores: builders when question 1 was answered "developer" or "founder",
   * otherwise the submitted `respondent_role` (general when absent); `None` when that value
   * does not name a role.
   */
  function StoredRole(cleaned: map<string, string>): (r: Option<RespondentRole>)
    ensures r == Some(RespondentRole.Builders) <==>
      Get(cleaned, ClassificationField, "") in BuilderAnswers || Get(cleaned, RoleField, "") == BuildersRole
    ensures r == Some(RespondentRole.General) <==>
      Get(cleaned, ClassificationField, "") !in BuilderAnswers && Get(cleaned, RoleField, "all") == RoleValue(RespondentRole.General)
  {
    if Get(cleaned, ClassificationField, "") in BuilderAnswers then Some(RespondentRole.Builders)
    else ParseRole(Get(cleaned, RoleField, RoleValue(DefaultRole)))
  }

  /** Every valid form yields a role to store. */
  lemma ValidFormStoresRole(qs: seq<Question>, data: map<string, string>, isEmail: string -> bool)
    requires FormCleaning(qs, data, isEmail).errors == map[]
    ensures StoredRole(FormCleaning(qs, data, isEmail).cleaned).Some?
  {
    ValidFormHasRole(qs, data, isEmail);
  }

  // ---------------------------------------------------------------------------
  // Answer resolution

  /** `{opt.value: opt for opt in options}`. */
  function OptionLookup(opts: seq<QuestionOption>): map<string, QuestionOption> {
    DictOf(seq(|opts|, i requires 0 <= i < |opts| => (opts[i].value, opts[i])))
  }

  /** The text stored for a submitted value: the label of its option when the question has options and one matches, else the value itself. */
  function ResolveAnswer(opts: seq<QuestionOption>, v: string): string {
    if |opts| == 0 then v
    else
      var lookup := OptionLookup(opts);
      if v in lookup then lookup[v].labelText else v
  }

  /** The option whose value was submitted gives its label (the last such option, were values to repeat); an unmatched value is stored as it is. */
  lemma ResolveAnswerCases(opts: seq<QuestionOption>, v: string, i: nat)
    ensures (forall j :: 0 <= j < |opts| ==> opts[j].value != v) ==> ResolveAnswer(opts, v) == v
    ensures i < |opts| && opts[i].value == v && (forall j :: i < j < |opts| ==> opts[j].value != v) ==>
      ResolveAnswer(opts, v) == opts[i].labelText
  {
    var pairs := seq(|opts|, j requires 0 <= j < |opts| => (opts[j].value, opts[j]));
    if forall j :: 0 <= j < |opts| ==> opts[j].value != v {
      DictOfAbsent(pairs, v);
    }
    if i < |opts| && opts[i].value == v && (forall j :: i < j < |opts| ==> opts[j].value != v) {
      DictOfLast(pairs, i);
    }
  }

  /**
   * Resolving against the options prefetched for question `qid` is resolving against the
   * option table: the label of the row (qid, v) if there is one, the value otherwise.
   */
  lemma ResolveAgainstTable(rows: map<OptionKey, QuestionOption>, qid: nat, opts: seq<QuestionOption>, v: string)
    requires IsOptionSnapshot(rows, qid, opts)
    ensures ResolveAnswer(opts, v) == if OptionKey(qid, v) in rows then rows[OptionKey(qid, v)].labelText else v
  {
    var k := OptionKey(qid, v);
    if k in rows {
      var i :| 0 <= i < |opts| && KeyOf(opts[i]) == k;
      forall j | i < j < |opts| ensures opts[j].value != v {
        assert KeyOf(opts[i]) != KeyOf(opts[j]);
      }
      ResolveAnswerCases(opts, v, i);
    } else {
      ResolveAnswerCases(opts, v, 0);
    }
  }

  // ---------------------------------------------------------------------------
  // The answers of a submission

  /** `question.options.all()` as prefetched with the question list. */
  function OptionsOf(prefetched: map<nat, seq<QuestionOption>>, qid: nat): seq<QuestionOption> {
    Get(prefetched, qid, [])
  }

  /** The answer a question contributes, if its cleaned answer is not empty. */
  function AnswerOf(responseId: nat, q: Question, prefetched: map<nat, seq<QuestionOption>>, cleaned: map<string, string>): Option<SurveyAnswer> {
    var v := Get(cleaned, AnswerFieldName(q.id), "");
    if v == "" then None else Some(SurveyAnswer(responseId, q.id, ResolveAnswer(OptionsOf(prefetched, q.id), v)))
  }

  /** The `answers` list the loop builds, question by question. */
  function AnswersFor(responseId: nat, qs: seq<Question>, prefetched: map<nat, seq<QuestionOption>>, cleaned: map<string, string>): seq<SurveyAnswer> {
    if |qs| == 0 then []
    else
      var front := AnswersFor(responseId, qs[..|qs| - 1], prefetched, cleaned);
      match AnswerOf(responseId, qs[|qs| - 1], prefetched, cleaned)
      case None => front
      case Some(a) => front + [a]
  }

  /** Every answer belongs to the new response and to one of the questions, in question order. */
  lemma {:induction false} AnswersForOrdered(responseId: nat, qs: seq<Question>, prefetched: map<nat, seq<QuestionOption>>, cleaned: map<string, string>)
    requires IncreasingIds(qs)
    ensures var batch := AnswersFor(responseId, qs, prefetched, cleaned);
      && |batch| <= |qs|
      && (forall k :: 0 <= k < |batch| ==> batch[k].responseId == responseId)
      && (forall k :: 0 <= k < |batch| ==> exists i :: 0 <= i < |qs| && batch[k].questionId == qs[i].id)
      && (forall k, l :: 0 <= k < l < |batch| ==> batch[k].questionId < batch[l].questionId)
  {
    if |qs| > 0 {
      var front := qs[..|qs| - 1];
      var q := qs[|qs| - 1];
      var prev := AnswersFor(responseId, front, prefetched, cleaned);
      AnswersForOrdered(responseId, front, prefetched, cleaned);
      assert forall i :: 0 <= i < |front| ==> front[i] == qs[i];
      assert forall k :: 0 <= k < |prev| ==> prev[k].questionId < q.id;
    }
  }

  /**
   * A question with an empty cleaned answer contributes no answer; one with a non-empty answer
   * contributes exactly the answer `AnswerOf` describes.
   */
  lemma {:induction false} AnswersForAt(responseId: nat, qs: seq<Question>, prefetched: map<nat, seq<QuestionOption>>, cleaned: map<string, string>, i: nat)
    requires IncreasingIds(qs) && i < |qs|
    ensures var batch, v := AnswersFor(responseId, qs, prefetched, cleaned), Get(cleaned, AnswerFieldName(qs[i].id), "");
      && (v == "" ==> forall k :: 0 <= k < |batch| ==> batch[k].questionId != qs[i].id)
      && (v != "" ==> exists k :: 0 <= k < |batch| && batch[k] == AnswerOf(responseId, qs[i], prefetched, cleaned).value)
  {
    var front, q := qs[..|qs| - 1], qs[|qs| - 1];
    var prev := AnswersFor(responseId, front, prefetched, cleaned);
    var batch := AnswersFor(responseId, qs, prefetched, cleaned);
    var v := Get(cleaned, AnswerFieldName(qs[i].id), "");
    AnswersForSnoc(responseId, qs, prefetched, cleaned);
    if i < |qs| - 1 {
      assert front[i] == qs[i] && qs[i].id < q.id;
      IncreasingFront(qs, front);
      AnswersForAt(responseId, front, prefetched, cleaned, i);
      if v != "" {
        var k :| 0 <= k < |prev| && prev[k] == AnswerOf(responseId, qs[i], prefetched, cleaned).value;
        assert batch[k] == prev[k];
      } else {
        forall k | 0 <= k < |batch| ensures batch[k].questionId != qs[i].id {
          if k < |prev| { assert batch[k] == prev[k]; }
        }
      }
    } else {
      AnswersBeforeLast(responseId, qs, prefetched, cleaned);
    }
  }

  /** The batch for `qs` is the batch for all but the last question, then that question's answer if it has one. */
  lemma AnswersForSnoc(responseId: nat, qs: seq<Question>, prefetched: map<nat, seq<QuestionOption>>, cleaned: map<string, string>)
    requires |qs| > 0
    ensures var prev := AnswersFor(responseId, qs[..|qs| - 1], prefetched, cleaned);
      var batch, a := AnswersFor(responseId, qs, prefetched, cleaned), AnswerOf(responseId, qs[|qs| - 1], prefetched, cleaned);
      && (a.None? ==> batch == prev)
      && (a.Some? ==> |batch| == |prev| + 1 && batch[..|prev|] == prev && batch[|prev|] == a.value)
  {
  }

  /** No answer for the front of a sorted list is about its last question. */
  lemma AnswersBeforeLast(responseId: nat, qs: seq<Question>, prefetched: map<nat, seq<QuestionOption>>, cleaned: map<string, string>)
    requires IncreasingIds(qs) && |qs| > 0
    ensures var batch, q := AnswersFor(responseId, qs, prefetched, cleaned), qs[|qs| - 1];
      var v := Get(cleaned, AnswerFieldName(q.id), "");
      && (v == "" ==> forall k :: 0 <= k < |batch| ==> batch[k].questionId != q.id)
      && (v != "" ==> exists k :: 0 <= k < |batch| && batch[k] == AnswerOf(responseId, q, prefetched, cleaned).value)
  {
    var front, q := qs[..|qs| - 1], qs[|qs| - 1];
    var prev := AnswersFor(responseId, front, prefetched, cleaned);
    AnswersForSnoc(responseId, qs, prefetched, cleaned);
    AnswersForOrdered(responseId, front, prefetched, cleaned);
    forall k | 0 <= k < |prev| ensures prev[k].questionId != q.id {
      var j :| 0 <= j < |front| && prev[k].questionId == front[j].id;
      assert front[j] == qs[j] && qs[j].id < q.id;
    }
    var batch := AnswersFor(responseId, qs, prefetched, cleaned);
    if Get(cleaned, AnswerFieldName(q.id), "") != "" {
      assert batch[|prev|] == AnswerOf(responseId, q, prefetched, cleaned).value;
    } else {
      assert batch == prev;
    }
  }


  /**
   * The batch fits the schema: for a response with no answers yet and a question list that is
   * the current active-questions query, inserting the batch keeps every answer constraint.
   */
  lemma SaveFitsSchema(
    answers: seq<SurveyAnswer>, responses: map<nat, SurveyResponse>, questions: map<nat, Question>,
    responseId: nat, qs: seq<Question>, prefetched: map<nat, seq<QuestionOption>>, cleaned: map<string, string>)
    requires AnswersValid(answers, responses, questions)
    requires responseId in responses && forall k :: 0 <= k < |answers| ==> answers[k].responseId != responseId
    requires IsActiveQuestionList(questions, qs)
    ensures AnswersValid(answers + AnswersFor(responseId, qs, prefetched, cleaned), responses, questions)
  {
    var batch := AnswersFor(responseId, qs, prefetched, cleaned);
    var all := answers + batch;
    AnswersForOrdered(responseId, qs, prefetched, cleaned);
    forall k | 0 <= k < |all| ensures all[k].responseId in responses && all[k].questionId in questions {
      if k >= |answers| {
        assert all[k] == batch[k - |answers|];
      }
    }
    forall k, l | 0 <= k < l < |all|
      ensures all[k].responseId != all[l].responseId || all[k].questionId != all[l].questionId
    {
      if l >= |answers| {
        assert all[l] == batch[l - |answers|];
        if k >= |answers| {
          assert all[k] == batch[k - |answers|];
        }
      }
    }
  }

  /**
   * From submission to stored answer: in a valid form, a question whose submitted answer is
   * not blank gets an answer holding the stripped submission resolved against its options
   * (so, for a question without options, the stripped text itself).
   */
  lemma StoredAnswerOfSubmission(
    responseId: nat, qs: seq<Question>, prefetched: map<nat, seq<QuestionOption>>,
    data: map<string, string>, isEmail: string -> bool, i: nat)
    requires IncreasingIds(qs) && i < |qs|
    requires FormCleaning(qs, data, isEmail).errors == map[]
    requires Strip(Get(data, AnswerFieldName(qs[i].id), "")) != ""
    ensures var batch := AnswersFor(responseId, qs, prefetched, FormCleaning(qs, data, isEmail).cleaned);
      var text := Strip(Get(data, AnswerFieldName(qs[i].id), ""));
      exists k :: 0 <= k < |batch| && batch[k] == SurveyAnswer(responseId, qs[i].id, ResolveAnswer(OptionsOf(prefetched, qs[i].id), text))
    ensures OptionsOf(prefetched, qs[i].id) == [] ==>
      ResolveAnswer(OptionsOf(prefetched, qs[i].id), Strip(Get(data, AnswerFieldName(qs[i].id), ""))) ==
        Strip(Get(data, AnswerFieldName(qs[i].id), ""))
  {
    var cleaned := FormCleaning(qs, data, isEmail).cleaned;
    ValidFormAnswersStripped(qs, data, isEmail, i);
    assert Get(cleaned, AnswerFieldName(qs[i].id), "") == Strip(Get(data, AnswerFieldName(qs[i].id), ""));
    AnswersForAt(responseId, qs, prefetched, cleaned, i);
  }

  // ---------------------------------------------------------------------------
  // The view

  /** What a POST leads to: the form's errors, a saved response, or a response whose answers could not be saved. */
  datatype Outcome =
    | Invalid(errors: map<string, seq<string>>)
    | Saved(response: SurveyResponse)
    | SaveFailed(response: SurveyResponse)

  /** The answer-building loop of the view. */
  method BuildAnswers(responseId: nat, qs: seq<Question>, prefetched: map<nat, seq<QuestionOption>>, cleaned: map<string, string>)
    returns (answers: seq<SurveyAnswer>)
    ensures answers == AnswersFor(responseId, qs, prefetched, cleaned)
  {
    answers := [];
    var i := 0;
    while i < |qs|
      invariant 0 <= i <= |qs|
      invariant answers == AnswersFor(responseId, qs[..i], prefetched, cleaned)
    {
      var question := qs[i];
      var answerValue := Get(cleaned, AnswerFieldName(question.id), "");
      assert qs[..i + 1][..i] == qs[..i];
      if answerValue != "" {
        var options := OptionsOf(prefetched, question.id);
        var answerText;
        if |options| > 0 {
          var lookup := OptionLookup(options);
          answerText := if answerValue in lookup then lookup[answerValue].labelText else answerValue;
        } else {
          answerText := answerValue;
        }
        answers := answers + [SurveyAnswer(responseId, question.id, answerText)];
      }
      i := i + 1;
    }
    assert qs[..|qs|] == qs;
  }

  /**
   * A POST to `survey_form`. An invalid form changes nothing. A valid one creates the response
   * (stripped name and email, the derived role, `created_at` = `now`) and then inserts the
   * answers in one batch if there are any; should that insert fail, the response stays, since
   * the view runs without a transaction.
   */
  method SubmitSurvey(
    db: Database, data: map<string, string>, qs: seq<Question>, prefetched: map<nat, seq<QuestionOption>>,
    isEmail: string -> bool, now: Timestamp)
    returns (outcome: Outcome, form: SurveyForm)
    requires db.Valid()
    modifies db
    ensures db.Valid() && fresh(form)
    ensures form.questions == qs && form.fields == FormFields(qs)
    ensures Cleaning(form.cleanedData, form.errors) == FormCleaning(qs, data, isEmail)
    ensures outcome.Invalid? <==> form.errors != map[]
    ensures outcome.Invalid? ==>
      && outcome.errors == form.errors
      && db.responses == old(db.responses) && db.nextResponseId == old(db.nextResponseId) && db.answers == old(db.answers)
    ensures !outcome.Invalid? ==> StoredRole(form.cleanedData).Some?
    ensures !outcome.Invalid? ==>
      && outcome.response == SurveyResponse(
           old(db.nextResponseId),
           Strip(Get(form.cleanedData, NameField, "")),
           Strip(Get(form.cleanedData, EmailField, "")),
           StoredRole(form.cleanedData).value,
           Some(now))
      && db.responses == old(db.responses)[outcome.response.id := outcome.response]
      && db.nextResponseId == old(db.nextResponseId) + 1
    ensures !outcome.Invalid? ==>
      var batch := AnswersFor(old(db.nextResponseId), qs, prefetched, form.cleanedData);
      && (outcome.Saved? <==> AnswersValid(old(db.answers) + batch, db.responses, db.questions))
      && db.answers == (if outcome.Saved? then old(db.answers) + batch else old(db.answers))
    ensures db.questions == old(db.questions) && db.OptionTableOf() == old(db.OptionTableOf())
  {
    form := new SurveyForm(data, qs, isEmail);
    var valid := form.IsValid();
    ghost var cleaning := Cleaning(form.cleanedData, form.errors);
    if valid {
      ValidFormStoresRole(qs, data, isEmail);
      outcome := SaveSubmission(db, form.cleanedData, qs, prefetched, now);
    } else {
      outcome := Invalid(form.errors);
    }
    assert Cleaning(form.cleanedData, form.errors) == cleaning;
  }

  /**
   * The valid branch of the view: create the response from the cleaned data, then insert its
   * answers in one batch when there are any. A failed insert leaves the response in place.
   */
  method SaveSubmission(db: Database, cleaned: map<string, string>, qs: seq<Question>, prefetched: map<nat, seq<QuestionOption>>, now: Timestamp)
    returns (outcome: Outcome)
    requires db.Valid() && StoredRole(cleaned).Some?
    modifies db
    ensures db.Valid() && !outcome.Invalid?
    ensures outcome.response == SurveyResponse(
      old(db.nextResponseId), Strip(Get(cleaned, NameField, "")), Strip(Get(cleaned, EmailField, "")),
      StoredRole(cleaned).value, Some(now))
    ensures db.responses == old(db.responses)[outcome.response.id := outcome.response]
    ensures db.nextResponseId == old(db.nextResponseId) + 1
    ensures var batch := AnswersFor(old(db.nextResponseId), qs, prefetched, cleaned);
      && (outcome.Saved? <==> AnswersValid(old(db.answers) + batch, db.responses, db.questions))
      && db.answers == (if outcome.Saved? then old(db.answers) + batch else old(db.answers))
    ensures db.questions == old(db.questions) && db.OptionTableOf() == old(db.OptionTableOf())
  {
    var respondentRole;
    if Get(cleaned, ClassificationField, "") in BuilderAnswers {
      respondentRole := RespondentRole.Builders;
    } else {
      respondentRole := ParseRole(Get(cleaned, RoleField, RoleValue(DefaultRole))).value;
    }
    assert respondentRole == StoredRole(cleaned).value;
    var response := db.CreateResponse(Strip(Get(cleaned, NameField, "")), Strip(Get(cleaned, EmailField, "")), respondentRole, now);
    var answers := BuildAnswers(response.id, qs, prefetched, cleaned);
    var ok := true;
    if |answers| > 0 {
      ok := db.BulkCreateAnswers(answers);
    } else {
      assert db.answers + answers == db.answers;
      assert AnswersValid(db.answers, db.responses, db.questions);
    }
    outcome := if ok then Saved(response) else SaveFailed(response);
  }

  /** A valid POST against the current question list never loses its answers. */
  lemma SubmitSaves(
    answers: seq<SurveyAnswer>, responses: map<nat, SurveyResponse>, nextResponseId: nat, questions: map<nat, Question>,
    qs: seq<Question>, prefetched: map<nat, seq<QuestionOption>>, cleaned: map<string, string>, r: SurveyResponse)
    requires AnswersValid(answers, responses, questions)
    requires forall id :: id in responses ==> id < nextResponseId
    requires r.id == nextResponseId
    requires IsActiveQuestionList(questions, qs)
    ensures AnswersValid(answers + AnswersFor(nextResponseId, qs, prefetched, cleaned), responses[r.id := r], questions)
  {
    var rs := responses[r.id := r];
    forall k | 0 <= k < |answers| ensures answers[k].responseId in rs && answers[k].responseId != nextResponseId {
      assert answers[k].responseId in responses;
    }
    SaveFitsSchema(answers, rs, questions, nextResponseId, qs, prefetched, cleaned);
  }

  // ---------------------------------------------------------------------------
  // Rendering

  /** The form a GET renders: none when there are no active questions. */
  method BlankForm(qs: seq<Question>, isEmail: string -> bool) returns (form: SurveyForm?)
    ensures form == null <==> |qs| == 0
    ensures form != null ==> fresh(form) && form.questions == qs && form.fields == FormFields(qs) && form.data == map[]
  {
    if |qs| > 0 {
      form := new SurveyForm(map[], qs, isEmail);
    } else {
      form := null;
    }
  }

  /** `question_field_pairs`: each question with its answer field, in question order, when there is a form. */
  method QuestionFieldPairs(qs: seq<Question>, form: SurveyForm?) returns (pairs: seq<(Question, FormField)>)
    requires form != null ==> form.questions == qs && form.fields == FormFields(qs)
    ensures form == null || |qs| == 0 ==> pairs == []
    ensures form != null ==> |pairs| == |qs|
    ensures form != null ==> forall i :: 0 <= i < |qs| ==>
      pairs[i].0 == qs[i] && AnswerFieldName(qs[i].id) in form.fields && pairs[i].1 == form.fields[AnswerFieldName(qs[i].id)]
  {
    pairs := [];
    if |qs| > 0 && form != null {
      FormFieldsKeys(qs);
      var i := 0;
      while i < |qs|
        invariant 0 <= i <= |qs| && |pairs| == i
        invariant forall j :: 0 <= j < i ==>
          pairs[j].0 == qs[j] && AnswerFieldName(qs[j].id) in form.fields && pairs[j].1 == form.fields[AnswerFieldName(qs[j].id)]
      {
        var fieldName := AnswerFieldName(qs[i].id);
        AnswerNamesAt(qs, i);
        pairs := pairs + [(qs[i], form.fields[fieldName])];
        i := i + 1;
      }
    }
  }

  /** With distinct question ids, the field paired with each question is its own answer field. */
  lemma PairedFieldIsAnswerField(qs: seq<Question>, i: nat)
    requires IncreasingIds(qs) && i < |qs|
    ensures AnswerFieldName(qs[i].id) in FormFields(qs)
    ensures FormFields(qs)[AnswerFieldName(qs[i].id)] == AnswerField(qs[i])
  {
    FormFieldsAt(qs, i);
  }
}
