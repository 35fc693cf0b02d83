/**
 * The survey app's records (surveys/models.py, and the option record created by
 * migration 0005): questions, their options, responses and answers, the two two-valued
 * enums, and the `__str__` renderings.
 *
 * Database timestamps are opaque `Timestamp` values; the width limits of the
 * database columns are not modelled.
 */
module Models {
  import opened Wrappers
  import opened Builtins

  type Timestamp = nat

  /** `Question.TargetAudience`: stored value and display label. */
  datatype TargetAudience = All | Builders

  function AudienceValue(a: TargetAudience): string {
    match a
    case All => "all"
    case Builders => "builders"
  }

  function AudienceLabel(a: TargetAudience): string {
    match a
    case All => "Everyone"
    case Builders => "Builders"
  }

  /** The audience a stored value stands for, if it is one of the two choices. */
  function ParseAudience(s: string): (r: Option<TargetAudience>)
    ensures r.Some? ==> AudienceValue(r.value) == s
    ensures r.None? <==> (forall a: TargetAudience :: AudienceValue(a) != s)
  {
    if s == "all" then Some(TargetAudience.All)
    else if s == "builders" then Some(TargetAudience.Builders)
    else None
  }

  /** `target_audience` defaults to ALL. */
  const DefaultAudience: TargetAudience := TargetAudience.All

  /** `SurveyResponse.RespondentRole`: stored value and display label. */
  datatype RespondentRole = General | Builders

  function RoleValue(r: RespondentRole): string {
    match r
    case General => "all"
    case Builders => "builders"
  }

  /** `get_respondent_role_display()`. */
  function RoleLabel(r: RespondentRole): string {
    match r
    case General => "General respondent"
    case Builders => "Builder / technical"
  }

  /** The role a submitted or stored value stands for, if it is one of the two choices. */
  function ParseRole(s: string): (r: Option<RespondentRole>)
    ensures r.Some? ==> RoleValue(r.value) == s
    ensures r.None? <==> (forall x: RespondentRole :: RoleValue(x) != s)
  {
    if s == "all" then Some(RespondentRole.General)
    else if s == "builders" then Some(RespondentRole.Builders)
    else None
  }

  /** `respondent_role` defaults to GENERAL. */
  const DefaultRole: RespondentRole := RespondentRole.General

  /** The stored values of the two enums are distinct and read back as themselves. */
  lemma EnumValuesRoundTrip(a: TargetAudience, r: RespondentRole)
    ensures ParseAudience(AudienceValue(a)) == Some(a)
    ensures ParseRole(RoleValue(r)) == Some(r)
    ensures AudienceValue(TargetAudience.All) == RoleValue(RespondentRole.General)
    ensures AudienceValue(TargetAudience.Builders) == RoleValue(RespondentRole.Builders)
  {
  }

  /** A `Question` row; `id` is the primary key. */
  datatype Question = Question(
    id: nat,
    category: string,
    prompt: string,
    targetAudience: TargetAudience,
    note: string,
    isActive: bool)

  /** A `QuestionOption` row: `id` is the auto-increment key, `questionId` the owning question. */
  datatype QuestionOption = QuestionOption(
    id: nat,
    questionId: nat,
    value: string,
    labelText: string,
    order: nat)

  /** A `SurveyResponse` row. */
  datatype SurveyResponse = SurveyResponse(
    id: nat,
    respondentName: string,
    respondentEmail: string,
    respondentRole: RespondentRole,
    createdAt: Option<Timestamp>)

  /** A `SurveyAnswer` row, linking one response to one question. */
  datatype SurveyAnswer = SurveyAnswer(
    responseId: nat,
    questionId: nat,
    answerText: string)

  /** `Question.__str__`: the id, ". ", then at most the first 50 characters of the prompt. */
  function QuestionStr(q: Question): (s: string)
    ensures var n := |NatToString(q.id)|;
      && |s| == n + 2 + Min(|q.prompt|, 50)
      && s[..n] == NatToString(q.id)
      && s[n..n + 2] == ". "
      && s[n + 2..] == q.prompt[..|s| - n - 2]
  {
    NatToString(q.id) + ". " + Take(q.prompt, 50)
  }

  /** A prompt of at most 50 characters appears whole; two questions print differently when their ids differ. */
  lemma QuestionStrShortPrompt(q: Question, p: Question)
    ensures |q.prompt| <= 50 ==> QuestionStr(q) == NatToString(q.id) + ". " + q.prompt
    ensures q.id != p.id ==> QuestionStr(q) != QuestionStr(p)
  {
    if q.id != p.id && QuestionStr(q) == QuestionStr(p) {
      var s := QuestionStr(q);
      var a, b := NatToString(q.id), NatToString(p.id);
      DigitsBeforeDot(a, Take(q.prompt, 50), b, Take(p.prompt, 50));
      NatToStringInjective(q.id, p.id);
    }
  }

  /** Two digit strings followed by ". " can only produce the same text when they are equal. */
  lemma DigitsBeforeDot(a: string, x: string, b: string, y: string)
    requires forall i :: 0 <= i < |a| ==> '0' <= a[i] <= '9'
    requires forall i :: 0 <= i < |b| ==> '0' <= b[i] <= '9'
    requires a + ". " + x == b + ". " + y
    ensures a == b
  {
    var s := a + ". " + x;
    assert s[..|a|] == a && s[|a|] == '.';
    assert s[..|b|] == b && s[|b|] == '.';
  }

  /** `SurveyResponse.__str__`: the name, or "Anonymous responder" when it is empty, then the role label in parentheses. */
  function ResponseStr(r: SurveyResponse): (s: string)
    ensures var tail := " (" + RoleLabel(r.respondentRole) + ")";
      && |tail| <= |s|
      && s[|s| - |tail|..] == tail
      && (r.respondentName != "" ==> s[..|s| - |tail|] == r.respondentName)
      && (r.respondentName == "" ==> s[..|s| - |tail|] == "Anonymous responder")
  {
    var identity := if r.respondentName != "" then r.respondentName else "Anonymous responder";
    var tail := " (" + RoleLabel(r.respondentRole) + ")";
    assert (identity + tail)[|identity|..] == tail && (identity + tail)[..|identity|] == identity;
    identity + tail
  }

  /**
   * `SurveyAnswer.__str__`. The separator between the two ids is, in the source file's bytes,
   * the UTF-8 encoding of a right arrow read back as Latin-1/cp1252: the three characters
   * U+00E2, U+2020, U+2019. It is modelled as the file has it.
   */
  const AnswerSeparator: string := " \U{E2}\U{2020}\U{2019} "

  function AnswerStr(a: SurveyAnswer): (s: string)
    ensures var r := "Response " + NatToString(a.responseId);
      && |r| + |AnswerSeparator| <= |s|
      && s[..|r|] == r
      && s[|r|..|r| + |AnswerSeparator|] == AnswerSeparator
      && s[|r| + |AnswerSeparator|..] == "Question " + NatToString(a.questionId)
  {
    "Response " + NatToString(a.responseId) + AnswerSeparator + "Question " + NatToString(a.questionId)
  }
}
