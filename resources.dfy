/**
 * The wide export of survey responses (surveys/resources.py, SurveyResponseDetailedResource):
 * five fixed columns, then one column per active question in ascending id, headed
 * "Q<id>: <prompt cut to 60 characters>"; one row per response, whose question cells hold
 * the response's answer to that question or "".
 *
 * The date formatter (`strftime`) is a parameter, the tabular container the export returns
 * is modelled as its headers and rows.
 */
module Resources {
  import opened Wrappers
  import opened Builtins
  import opened Models
  import opened Store

  const FixedHeaders: seq<string> := ["ID", "Respondent Name", "Respondent Email", "Respondent Role", "Response Date"]

  /** The prompt of a column header: cut to its first 60 characters and marked with "..." when longer. */
  function ShortPrompt(prompt: string): (s: string)
    ensures |prompt| <= 60 ==> s == prompt
    ensures |prompt| > 60 ==> |s| == 63 && s[..60] == prompt[..60] && s[60..] == "..."
    ensures |s| <= 63
  {
    if |prompt| > 60 then prompt[..60] + "..." else prompt
  }

  /** The header of a question's column. */
  function ColumnName(q: Question): string {
    "Q" + NatToString(q.id) + ": " + ShortPrompt(q.prompt)
  }

  /** The name of the field `__init__` adds for a question. */
  function QuestionFieldName(id: nat): string {
    "q" + NatToString(id)
  }

  /** Different questions get different column fields. */
  lemma QuestionFieldNameInjective(a: nat, b: nat)
    ensures QuestionFieldName(a) == QuestionFieldName(b) <==> a == b
  {
    if QuestionFieldName(a) == QuestionFieldName(b) {
      assert QuestionFieldName(a)[1..] == NatToString(a);
      assert QuestionFieldName(b)[1..] == NatToString(b);
      NatToStringInjective(a, b);
    }
  }

  /** A column header starts with "Q", the id and ": ", and ends with the short prompt. */
  lemma ColumnNameShape(q: Question)
    ensures var n := NatToString(q.id);
      && ColumnName(q)[..1 + |n| + 2] == "Q" + n + ": "
      && ColumnName(q)[1 + |n| + 2..] == ShortPrompt(q.prompt)
  {
  }

  // ---------------------------------------------------------------------------
  // The dehydrate methods

  function DehydrateName(r: SurveyResponse): (s: string)
    ensures r.respondentName != "" ==> s == r.respondentName
    ensures r.respondentName == "" ==> s == "Anonymous"
  {
    if r.respondentName != "" then r.respondentName else "Anonymous"
  }

  /** `respondent_email or ''`, which is the email itself. */
  function DehydrateEmail(r: SurveyResponse): (s: string)
    ensures s == r.respondentEmail
  {
    if r.respondentEmail != "" then r.respondentEmail else ""
  }

  function DehydrateRole(r: SurveyResponse): string {
    RoleLabel(r.respondentRole)
  }

  function DehydrateDate(r: SurveyResponse, formatDate: Timestamp -> string): (s: string)
    ensures r.createdAt.None? ==> s == ""
    ensures r.createdAt.Some? ==> s == formatDate(r.createdAt.value)
  {
    match r.createdAt
    case Some(t) => formatDate(t)
    case None => ""
  }

  // ---------------------------------------------------------------------------
  // Headers and rows

  /** A cell of the export: the response id, or text. */
  datatype Cell = Number(n: nat) | Text(s: string)

  function QuestionIds(qs: seq<Question>): (ids: seq<nat>)
    ensures |ids| == |qs| && forall i :: 0 <= i < |qs| ==> ids[i] == qs[i].id
  {
    seq(|qs|, i requires 0 <= i < |qs| => qs[i].id)
  }

  function ColumnNames(qs: seq<Question>): (names: seq<string>)
    ensures |names| == |qs| && forall i :: 0 <= i < |qs| ==> names[i] == ColumnName(qs[i])
  {
    seq(|qs|, i requires 0 <= i < |qs| => ColumnName(qs[i]))
  }

  /** The headers for the active questions `qs`. */
  function HeadersFor(qs: seq<Question>): seq<string> {
    FixedHeaders + ColumnNames(qs)
  }

  /** `response.answers.all()`: the answers of response `rid`, in table order. */
  function AnswersOfResponse(answers: seq<SurveyAnswer>, rid: nat): (r: seq<SurveyAnswer>)
    ensures forall k :: 0 <= k < |r| ==> r[k].responseId == rid && r[k] in answers
    ensures forall k :: 0 <= k < |answers| && answers[k].responseId == rid ==> answers[k] in r
  {
    if |answers| == 0 then []
    else
      var front := AnswersOfResponse(answers[..|answers| - 1], rid);
      var a := answers[|answers| - 1];
      assert forall k :: 0 <= k < |answers| - 1 ==> answers[k] == answers[..|answers| - 1][k];
      if a.responseId == rid then front + [a] else front
  }

  /** `{answer.question_id: answer.answer_text for answer in ...}`. */
  function AnswerTexts(answers: seq<SurveyAnswer>): map<nat, string> {
    DictOf(seq(|answers|, k requires 0 <= k < |answers| => (answers[k].questionId, answers[k].answerText)))
  }

  /** The five fixed cells `export` writes itself, without going through the dehydrate methods. */
  function FixedCells(r: SurveyResponse, formatDate: Timestamp -> string): seq<Cell> {
    [ Number(r.id),
      Text(if r.respondentName != "" then r.respondentName else "Anonymous"),
      Text(if r.respondentEmail != "" then r.respondentEmail else ""),
      Text(RoleLabel(r.respondentRole)),
      Text(if r.createdAt.Some? then formatDate(r.createdAt.value) else "") ]
  }

  /** The cells of the question columns: the response's answer text per question id, or "". */
  function AnswerCells(texts: map<nat, string>, ids: seq<nat>): (cells: seq<Cell>)
    ensures |cells| == |ids|
    ensures forall j :: 0 <= j < |ids| ==> cells[j] == Text(Get(texts, ids[j], ""))
  {
    seq(|ids|, j requires 0 <= j < |ids| => Text(Get(texts, ids[j], "")))
  }

  /** The row of one response. */
  function RowFor(r: SurveyResponse, ids: seq<nat>, answers: seq<SurveyAnswer>, formatDate: Timestamp -> string): seq<Cell> {
    FixedCells(r, formatDate) + AnswerCells(AnswerTexts(AnswersOfResponse(answers, r.id)), ids)
  }

  function RowsFor(queryset: seq<SurveyResponse>, ids: seq<nat>, answers: seq<SurveyAnswer>, formatDate: Timestamp -> string): (rows: seq<seq<Cell>>)
    ensures |rows| == |queryset|
    ensures forall i :: 0 <= i < |queryset| ==> rows[i] == RowFor(queryset[i], ids, answers, formatDate)
  {
    seq(|queryset|, i requires 0 <= i < |queryset| => RowFor(queryset[i], ids, answers, formatDate))
  }

  /** Every row is as long as the header, and starts with the response's fixed cells. */
  lemma RowMatchesHeaders(r: SurveyResponse, qs: seq<Question>, answers: seq<SurveyAnswer>, formatDate: Timestamp -> string)
    ensures var row := RowFor(r, QuestionIds(qs), answers, formatDate);
      && |row| == |HeadersFor(qs)| == 5 + |qs|
      && row[0] == Number(r.id)
      && row[1] == Text(if r.respondentName != "" then r.respondentName else "Anonymous")
      && row[2] == Text(r.respondentEmail)
      && row[3] == Text(RoleLabel(r.respondentRole))
      && row[4] == Text(if r.createdAt.Some? then formatDate(r.createdAt.value) else "")
  {
  }

  /**
   * The overridden `export` repeats the dehydrate methods' logic inline; both give the same
   * fixed cells, so the resource's declared fields and the exported row agree.
   */
  lemma DehydrateAgreesWithExport(r: SurveyResponse, ids: seq<nat>, answers: seq<SurveyAnswer>, formatDate: Timestamp -> string)
    ensures var row := RowFor(r, ids, answers, formatDate);
      && row[1] == Text(DehydrateName(r))
      && row[2] == Text(DehydrateEmail(r))
      && row[3] == Text(DehydrateRole(r))
      && row[4] == Text(DehydrateDate(r, formatDate))
  {
  }

  /**
   * The cell under question `qs[j]` is the text of the response's answer to that question if
   * there is one, and "" otherwise; so nothing but answers to the listed (active) questions
   * appears in a row.
   */
  lemma CellIsAnswer(r: SurveyResponse, qs: seq<Question>, answers: seq<SurveyAnswer>, formatDate: Timestamp -> string, j: nat)
    requires AnswersUnique(answers) && j < |qs|
    ensures var cell := RowFor(r, QuestionIds(qs), answers, formatDate)[5 + j];
      && ((forall k :: 0 <= k < |answers| ==> answers[k].responseId != r.id || answers[k].questionId != qs[j].id) ==> cell == Text(""))
      && (forall k :: 0 <= k < |answers| && answers[k].responseId == r.id && answers[k].questionId == qs[j].id ==>
            cell == Text(answers[k].answerText))
  {
    var mine := AnswersOfResponse(answers, r.id);
    var row := RowFor(r, QuestionIds(qs), answers, formatDate);
    assert row[5 + j] == Text(Get(AnswerTexts(mine), qs[j].id, ""));
    if forall k :: 0 <= k < |answers| ==> answers[k].responseId != r.id || answers[k].questionId != qs[j].id {
      forall k | 0 <= k < |mine| ensures mine[k].questionId != qs[j].id {
        assert mine[k] in answers;
      }
      AnswerTextAbsent(mine, qs[j].id);
    }
    forall k | 0 <= k < |answers| && answers[k].responseId == r.id && answers[k].questionId == qs[j].id
      ensures row[5 + j] == Text(answers[k].answerText)
    {
      AnswerTextPresent(answers, r.id, k);
    }
  }

  lemma AnswerTextAbsent(mine: seq<SurveyAnswer>, qid: nat)
    requires forall k :: 0 <= k < |mine| ==> mine[k].questionId != qid
    ensures qid !in AnswerTexts(mine)
  {
    var pairs := seq(|mine|, k requires 0 <= k < |mine| => (mine[k].questionId, mine[k].answerText));
    DictOfAbsent(pairs, qid);
  }

  lemma AnswerTextPresent(answers: seq<SurveyAnswer>, rid: nat, k: nat)
    requires AnswersUnique(answers) && k < |answers| && answers[k].responseId == rid
    ensures var texts := AnswerTexts(AnswersOfResponse(answers, rid));
      answers[k].questionId in texts && texts[answers[k].questionId] == answers[k].answerText
  {
    var mine := AnswersOfResponse(answers, rid);
    var qid := answers[k].questionId;
    var pairs := seq(|mine|, l requires 0 <= l < |mine| => (mine[l].questionId, mine[l].answerText));
    assert answers[k] in mine;
    var m :| 0 <= m < |mine| && mine[m] == answers[k];
    assert pairs[m].0 == qid;
    var texts := DictOf(pairs);
    var i :| 0 <= i < |pairs| && pairs[i] == (qid, texts[qid]);
    OnlyAnswer(answers, rid, qid, k, mine[i]);
  }

  /** With one answer per (response, question), an answer of the response to the question is that one answer. */
  lemma OnlyAnswer(answers: seq<SurveyAnswer>, rid: nat, qid: nat, k: nat, a: SurveyAnswer)
    requires AnswersUnique(answers) && k < |answers|
    requires answers[k].responseId == rid && answers[k].questionId == qid
    requires a in answers && a.responseId == rid && a.questionId == qid
    ensures a == answers[k]
  {
    var l :| 0 <= l < |answers| && answers[l] == a;
    assert !(l < k) && !(k < l);
  }

  /** The question columns added for the questions `qs`, one after the other. */
  function QuestionColumns(qs: seq<Question>): map<string, string> {
    if |qs| == 0 then map[]
    else QuestionColumns(qs[..|qs| - 1])[QuestionFieldName(qs[|qs| - 1].id) := ColumnName(qs[|qs| - 1])]
  }

  /** Each field comes from one of the questions. */
  lemma {:induction false} QuestionColumnsKeys(qs: seq<Question>)
    ensures forall name :: name in QuestionColumns(qs) ==> exists j :: 0 <= j < |qs| && name == QuestionFieldName(qs[j].id)
  {
    if |qs| > 0 {
      var front := qs[..|qs| - 1];
      QuestionColumnsKeys(front);
      forall name | name in QuestionColumns(qs) ensures exists j :: 0 <= j < |qs| && name == QuestionFieldName(qs[j].id) {
        if name != QuestionFieldName(qs[|qs| - 1].id) {
          assert name in QuestionColumns(front);
          var j :| 0 <= j < |front| && name == QuestionFieldName(front[j].id);
          assert front[j] == qs[j];
        }
      }
    }
  }

  /** For questions with increasing ids, each question's field holds its column header. */
  lemma {:induction false} QuestionColumnsAt(qs: seq<Question>)
    requires IncreasingIds(qs)
    ensures forall j :: 0 <= j < |qs| ==>
      QuestionFieldName(qs[j].id) in QuestionColumns(qs) && QuestionColumns(qs)[QuestionFieldName(qs[j].id)] == ColumnName(qs[j])
  {
    if |qs| > 0 {
      var front, q := qs[..|qs| - 1], qs[|qs| - 1];
      assert forall j :: 0 <= j < |front| ==> front[j] == qs[j];
      QuestionColumnsAt(front);
      forall j | 0 <= j < |front| ensures QuestionFieldName(front[j].id) != QuestionFieldName(q.id) {
        QuestionFieldNameInjective(front[j].id, q.id);
      }
    }
  }

  /** Over the active-questions list, the columns are those of the active questions of the table. */
  lemma ColumnsOfTable(questions: map<nat, Question>, active: seq<Question>)
    requires IsActiveQuestionList(questions, active)
    ensures forall name :: name in QuestionColumns(active) <==>
      exists id :: id in questions && questions[id].isActive && name == QuestionFieldName(id)
    ensures forall id :: id in questions && questions[id].isActive ==>
      QuestionFieldName(id) in QuestionColumns(active) && QuestionColumns(active)[QuestionFieldName(id)] == ColumnName(questions[id])
  {
    QuestionColumnsKeys(active);
    QuestionColumnsAt(active);
    forall name | name in QuestionColumns(active)
      ensures exists id :: id in questions && questions[id].isActive && name == QuestionFieldName(id)
    {
      var j :| 0 <= j < |active| && name == QuestionFieldName(active[j].id);
      assert active[j].id in questions && questions[active[j].id].isActive;
    }
    forall id | id in questions && questions[id].isActive
      ensures QuestionFieldName(id) in QuestionColumns(active) && QuestionColumns(active)[QuestionFieldName(id)] == ColumnName(questions[id])
    {
      var j :| 0 <= j < |active| && active[j].id == id;
    }
  }

  // ---------------------------------------------------------------------------
  // The resource object

  class DetailedResource {
    /** The question columns `__init__` adds with `setattr`: field name to column header. */
    var questionFields: map<string, string>

    /** `__init__`: one read-only column per active question. */
    constructor (questions: map<nat, Question>)
      requires QuestionsKeyed(questions)
      ensures forall name :: name in questionFields <==>
        exists id :: id in questions && questions[id].isActive && name == QuestionFieldName(id)
      ensures forall id :: id in questions && questions[id].isActive ==>
        QuestionFieldName(id) in questionFields && questionFields[QuestionFieldName(id)] == ColumnName(questions[id])
    {
      var active := ActiveQuestions(questions);
      questionFields := map[];
      new;
      var i := 0;
      while i < |active|
        invariant 0 <= i <= |active|
        invariant questionFields == QuestionColumns(active[..i])
      {
        var q := active[i];
        assert active[..i + 1][..i] == active[..i];
        questionFields := questionFields[QuestionFieldName(q.id) := ColumnName(q)];
        i := i + 1;
      }
      assert active[..|active|] == active;
      ColumnsOfTable(questions, active);
    }

    /** `get_export_headers`: the fixed headers, then one per active question in ascending id. */
    method GetExportHeaders(questions: map<nat, Question>) returns (headers: seq<string>)
      requires QuestionsKeyed(questions)
      ensures exists qs :: IsActiveQuestionList(questions, qs) && headers == HeadersFor(qs)
    {
      var qs := ActiveQuestions(questions);
      headers := ColumnHeaders(qs);
      assert IsActiveQuestionList(questions, qs) && headers == HeadersFor(qs);
    }

    /** `export(queryset)`: the headers and one row per response of the queryset, in its order. */
    method Export(db: Database, queryset: seq<SurveyResponse>, formatDate: Timestamp -> string)
      returns (headers: seq<string>, rows: seq<seq<Cell>>)
      requires QuestionsKeyed(db.questions)
      ensures exists qs ::
        && IsActiveQuestionList(db.questions, qs)
        && headers == HeadersFor(qs)
        && rows == RowsFor(queryset, QuestionIds(qs), db.answers, formatDate)
    {
      var questions := ActiveQuestions(db.questions);
      var questionIds := QuestionIds(questions);
      headers := ColumnHeaders(questions);
      rows := [];
      var n := 0;
      while n < |queryset|
        invariant 0 <= n <= |queryset|
        invariant rows == RowsFor(queryset[..n], questionIds, db.answers, formatDate)
      {
        var row := BuildRow(queryset[n], questionIds, db.answers, formatDate);
        RowsForSnoc(queryset, n, questionIds, db.answers, formatDate);
        rows := rows + [row];
        n := n + 1;
      }
      assert queryset[..|queryset|] == queryset;
      assert IsActiveQuestionList(db.questions, questions) && headers == HeadersFor(questions);
    }
  }

  /** One more response adds its row to the rows of the responses before it. */
  lemma RowsForSnoc(queryset: seq<SurveyResponse>, n: nat, ids: seq<nat>, answers: seq<SurveyAnswer>, formatDate: Timestamp -> string)
    requires n < |queryset|
    ensures RowsFor(queryset[..n + 1], ids, answers, formatDate) ==
      RowsFor(queryset[..n], ids, answers, formatDate) + [RowFor(queryset[n], ids, answers, formatDate)]
  {
    var a := RowsFor(queryset[..n + 1], ids, answers, formatDate);
    var b := RowsFor(queryset[..n], ids, answers, formatDate) + [RowFor(queryset[n], ids, answers, formatDate)];
    forall i | 0 <= i < |a| ensures a[i] == b[i] {
      if i < n {
        assert queryset[..n + 1][i] == queryset[..n][i];
      } else {
        assert queryset[..n + 1][i] == queryset[n];
      }
    }
  }

  /** The header loop of `get_export_headers` and `export`: the fixed headers, then one per question of `qs`. */
  method ColumnHeaders(qs: seq<Question>) returns (headers: seq<string>)
    ensures headers == HeadersFor(qs)
  {
    headers := FixedHeaders;
    var i := 0;
    while i < |qs|
      invariant 0 <= i <= |qs|
      invariant headers == FixedHeaders + ColumnNames(qs[..i])
    {
      assert ColumnNames(qs[..i + 1]) == ColumnNames(qs[..i]) + [ColumnName(qs[i])];
      headers := headers + [ColumnName(qs[i])];
      i := i + 1;
    }
    assert qs[..|qs|] == qs;
  }

  /** The row loop of `export` for one response: its fixed cells, then its answer to each question, or "". */
  method BuildRow(response: SurveyResponse, questionIds: seq<nat>, answers: seq<SurveyAnswer>, formatDate: Timestamp -> string)
    returns (row: seq<Cell>)
    ensures row == RowFor(response, questionIds, answers, formatDate)
  {
    var answersDict := AnswerTexts(AnswersOfResponse(answers, response.id));
    var cells: seq<Cell> := [];
    var j := 0;
    while j < |questionIds|
      invariant 0 <= j <= |questionIds|
      invariant cells == AnswerCells(answersDict, questionIds[..j])
    {
      assert AnswerCells(answersDict, questionIds[..j + 1]) ==
        AnswerCells(answersDict, questionIds[..j]) + [Text(Get(answersDict, questionIds[j], ""))];
      cells := cells + [Text(Get(answersDict, questionIds[j], ""))];
      j := j + 1;
    }
    assert questionIds[..|questionIds|] == questionIds;
    row := FixedCells(response, formatDate) + cells;
  }
}
