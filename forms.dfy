/**
 * The survey form (surveys/forms.py): three respondent fields, one text answer field per
 * question named `question_<id>` and required exactly for questions meant for everyone, and
 * the form-level `clean` that strips the answers and demands builders-only answers from
 * respondents who declare themselves builders.
 *
 * Django's own field cleaning (the stripping and required check of a CharField, the
 * EmailField validator, the ChoiceField membership check, the null-character validator) is
 * the pure function `CleanFields`; the email validator itself is the parameter `isEmail`.
 */
module Forms {
  import opened Wrappers
  import opened Builtins
  import opened Models

  const NameField: string := "respondent_name"
  const EmailField: string := "respondent_email"
  const RoleField: string := "respondent_role"

  const BuildersRequiredMessage: string := "This question is required for builders."
  const RequiredMessage: string := "This field is required."
  const InvalidEmailMessage: string := "Enter a valid email address."
  const NullCharacterMessage: string := "Null characters are not allowed."

  function InvalidChoiceMessage(v: string): string {
    "Select a valid choice. " + v + " is not one of the available choices."
  }

  /** The separator `_build_help_text` joins with: " • ". */
  const HelpSeparator: string := " \U{2022} "
  const BuildersOnlyPart: string := "Builders only"

  /** A text input or text area, an email input, or the radio choice of the respondent role. */
  datatype FieldKind = Text | Email | RoleChoice

  datatype FormField = FormField(kind: FieldKind, labelText: string, required: bool, helpText: string)

  // ---------------------------------------------------------------------------
  // Field construction

  /** `answer_field_name`: "question_" followed by the question's id. */
  function AnswerFieldName(id: nat): (name: string)
    ensures |name| > 9 && name[..9] == "question_" && name[9..] == NatToString(id)
  {
    "question_" + NatToString(id)
  }

  /** Different questions get different field names, and none clashes with a respondent field. */
  lemma AnswerFieldNameInjective(a: nat, b: nat)
    ensures AnswerFieldName(a) == AnswerFieldName(b) <==> a == b
    ensures AnswerFieldName(a) != NameField && AnswerFieldName(a) != EmailField && AnswerFieldName(a) != RoleField
  {
    if AnswerFieldName(a) == AnswerFieldName(b) {
      assert AnswerFieldName(a)[9..] == AnswerFieldName(b)[9..];
      NatToStringInjective(a, b);
    }
    assert AnswerFieldName(a)[0] == 'q';
  }

  /** The parts `_build_help_text` joins: the category, "Builders only" for a builders question, and the note if it is not empty. */
  function HelpParts(q: Question): seq<string> {
    [q.category]
    + (if q.targetAudience == TargetAudience.Builders then [BuildersOnlyPart] else [])
    + (if q.note != "" then [q.note] else [])
  }

  function BuildHelpText(q: Question): string {
    Join(HelpParts(q), HelpSeparator)
  }

  /** The help text in each of its four shapes. */
  lemma HelpTextCases(q: Question)
    ensures q.targetAudience == TargetAudience.All && q.note == "" ==> BuildHelpText(q) == q.category
    ensures q.targetAudience == TargetAudience.All && q.note != "" ==>
      BuildHelpText(q) == q.category + HelpSeparator + q.note
    ensures q.targetAudience == TargetAudience.Builders && q.note == "" ==>
      BuildHelpText(q) == q.category + HelpSeparator + BuildersOnlyPart
    ensures q.targetAudience == TargetAudience.Builders && q.note != "" ==>
      BuildHelpText(q) == q.category + HelpSeparator + BuildersOnlyPart + HelpSeparator + q.note
  {
    var builders := q.targetAudience == TargetAudience.Builders;
    if !builders && q.note == "" {
      assert HelpParts(q) == [q.category];
    } else if !builders {
      assert HelpParts(q) == [q.category] + [q.note];
      JoinSnoc([q.category], HelpSeparator, q.note);
    } else if q.note == "" {
      assert HelpParts(q) == [q.category] + [BuildersOnlyPart];
      JoinSnoc([q.category], HelpSeparator, BuildersOnlyPart);
    } else {
      assert HelpParts(q) == [q.category, BuildersOnlyPart] + [q.note];
      JoinSnoc([q.category], HelpSeparator, BuildersOnlyPart);
      assert [q.category] + [BuildersOnlyPart] == [q.category, BuildersOnlyPart];
      JoinSnoc([q.category, BuildersOnlyPart], HelpSeparator, q.note);
    }
  }

  /** The answer field of a question: a text area labelled with the prompt, required exactly for an everyone question. */
  function AnswerField(q: Question): FormField {
    FormField(Text, q.prompt, q.targetAudience == TargetAudience.All, BuildHelpText(q))
  }

  /** The three declared fields of `SurveyForm`. */
  function BaseFields(): map<string, FormField> {
    map[
      NameField := FormField(Text, "Your name", false, "Optional. Helps us follow up with clarifying questions."),
      EmailField := FormField(Email, "Email", false, "Optional. We will only use it to follow up on your answers."),
      RoleField := FormField(RoleChoice, "Which best describes you?", true, "")]
  }

  /** `self.fields` once `__init__` has added an answer field for each question in turn. */
  function FormFields(qs: seq<Question>): map<string, FormField> {
    if |qs| == 0 then BaseFields()
    else FormFields(qs[..|qs| - 1])[AnswerFieldName(qs[|qs| - 1].id) := AnswerField(qs[|qs| - 1])]
  }

  /** The field names of the questions, added in turn. */
  function AnswerNames(qs: seq<Question>): set<string> {
    if |qs| == 0 then {} else AnswerNames(qs[..|qs| - 1]) + {AnswerFieldName(qs[|qs| - 1].id)}
  }

  /** Every question's field name is among the answer names. */
  lemma {:induction false} AnswerNamesAt(qs: seq<Question>, i: nat)
    requires i < |qs|
    ensures AnswerFieldName(qs[i].id) in AnswerNames(qs)
  {
    if i < |qs| - 1 {
      assert qs[..|qs| - 1][i] == qs[i];
      AnswerNamesAt(qs[..|qs| - 1], i);
    }
  }

  /** Every answer name is the field name of some question. */
  lemma {:induction false} AnswerNamesFrom(qs: seq<Question>, name: string)
    requires name in AnswerNames(qs)
    ensures exists i :: 0 <= i < |qs| && AnswerFieldName(qs[i].id) == name
  {
    var front := qs[..|qs| - 1];
    if name in AnswerNames(front) {
      AnswerNamesFrom(front, name);
      var i :| 0 <= i < |front| && AnswerFieldName(front[i].id) == name;
      assert qs[i] == front[i];
    } else {
      assert AnswerFieldName(qs[|qs| - 1].id) == name;
    }
  }

  /** The form has exactly the three respondent fields and one answer field per question. */
  lemma {:induction false} FormFieldsKeys(qs: seq<Question>)
    ensures FormFields(qs).Keys == BaseFields().Keys + AnswerNames(qs)
  {
    if |qs| > 0 {
      FormFieldsKeys(qs[..|qs| - 1]);
    }
  }

  /** Adding answer fields never replaces a respondent field. */
  lemma {:induction false} FormFieldsBase(qs: seq<Question>)
    ensures forall name :: name in BaseFields() ==> name in FormFields(qs) && FormFields(qs)[name] == BaseFields()[name]
  {
    if |qs| > 0 {
      FormFieldsBase(qs[..|qs| - 1]);
      AnswerFieldNameInjective(qs[|qs| - 1].id, qs[|qs| - 1].id);
    }
  }

  /**
   * Each question's field (the last one, should an id repeat) is its text area labelled with
   * the prompt, required exactly when the question is for everyone.
   */
  lemma {:induction false} FormFieldsAt(qs: seq<Question>, i: nat)
    requires i < |qs|
    requires forall j :: i < j < |qs| ==> qs[j].id != qs[i].id
    ensures AnswerFieldName(qs[i].id) in FormFields(qs)
    ensures FormFields(qs)[AnswerFieldName(qs[i].id)] ==
      FormField(Text, qs[i].prompt, qs[i].targetAudience == TargetAudience.All, BuildHelpText(qs[i]))
  {
    if i < |qs| - 1 {
      var front := qs[..|qs| - 1];
      assert front[i] == qs[i];
      forall j | i < j < |front| ensures front[j].id != front[i].id {
        assert front[j] == qs[j];
      }
      FormFieldsAt(front, i);
      AnswerFieldNameInjective(qs[|qs| - 1].id, qs[i].id);
    }
  }

  // ---------------------------------------------------------------------------
  // Field cleaning (Django)

  /** A field's clean value, or the messages of its ValidationError. */
  datatype FieldOutcome = Accepted(value: string) | Rejected(messages: seq<string>)

  const NullCharacter: char := '\U{0}'

  /** The validators of a non-empty text or email value; every failing one reports. */
  function ValidatorMessages(v: string, checkEmail: bool, isEmail: string -> bool): (m: seq<string>)
    ensures m == [] <==> (!checkEmail || isEmail(v)) && NullCharacter !in v
    ensures NullCharacter in v && !checkEmail ==> m == [NullCharacterMessage]
  {
    (if checkEmail && !isEmail(v) then [InvalidEmailMessage] else [])
    + (if NullCharacter in v then [NullCharacterMessage] else [])
  }

  /**
   * The rest of `clean` for a text or email field, given the stripped value: empty is an error
   * when the field is required and "" otherwise; a non-empty value must pass the validators.
   */
  function CleanText(f: FormField, v: string, isEmail: string -> bool): (r: FieldOutcome)
    ensures r.Rejected? ==> |r.messages| > 0
    ensures r.Accepted? ==> r.value == v && NullCharacter !in v && (v == "" ==> !f.required)
    ensures f.kind == Email && r.Accepted? && v != "" ==> isEmail(v)
  {
    if v == "" then (if f.required then Rejected([RequiredMessage]) else Accepted(""))
    else
      var messages := ValidatorMessages(v, f.kind == Email, isEmail);
      if messages == [] then Accepted(v) else Rejected(messages)
  }

  /** The rest of `clean` for the role choice: empty is an error when required, and anything else must be a role value. */
  function CleanChoice(f: FormField, v: string): (r: FieldOutcome)
    ensures r.Rejected? ==> |r.messages| > 0
    ensures r.Accepted? ==> r.value == v && (v == "" ==> !f.required) && (v != "" ==> ParseRole(v).Some?)
  {
    if v == "" then (if f.required then Rejected([RequiredMessage]) else Accepted(""))
    else if ParseRole(v).None? then Rejected([InvalidChoiceMessage(v)])
    else Accepted(v)
  }

  /**
   * `field.clean(raw)`: a text or email field strips the value, the role choice does not; then
   * the required check and the validators, every failing validator reporting.
   */
  function CleanValue(f: FormField, raw: Option<string>, isEmail: string -> bool): (r: FieldOutcome)
    ensures r.Rejected? ==> |r.messages| > 0
    ensures r.Accepted? && r.value == "" ==> !f.required
    ensures f.kind != RoleChoice && r.Accepted? ==> r.value == Strip(raw.GetOr("")) && NullCharacter !in r.value
    ensures f.kind == Email && r.Accepted? && r.value != "" ==> isEmail(r.value)
    ensures f.kind == RoleChoice && r.Accepted? && r.value != "" ==> ParseRole(r.value).Some? && r.value == raw.GetOr("")
  {
    if f.kind == RoleChoice then CleanChoice(f, raw.GetOr(""))
    else CleanText(f, Strip(raw.GetOr("")), isEmail)
  }

  /** `cleaned_data` and `errors` of a form. */
  datatype Cleaning = Cleaning(cleaned: map<string, string>, errors: map<string, seq<string>>)

  function Submitted(data: map<string, string>, name: string): Option<string> {
    if name in data then Some(data[name]) else None
  }

  /** `_clean_fields`: each field's clean value goes into `cleaned_data`, each failure into `errors`. */
  function CleanFields(fields: map<string, FormField>, data: map<string, string>, isEmail: string -> bool): (c: Cleaning)
    ensures forall name :: name in fields <==> name in c.cleaned || name in c.errors
    ensures forall name :: !(name in c.cleaned && name in c.errors)
    ensures forall name :: name in c.cleaned ==> CleanValue(fields[name], Submitted(data, name), isEmail) == Accepted(c.cleaned[name])
    ensures forall name :: name in c.errors ==> CleanValue(fields[name], Submitted(data, name), isEmail) == Rejected(c.errors[name])
  {
    Cleaning(
      map name | name in fields && CleanValue(fields[name], Submitted(data, name), isEmail).Accepted? ::
        CleanValue(fields[name], Submitted(data, name), isEmail).value,
      map name | name in fields && CleanValue(fields[name], Submitted(data, name), isEmail).Rejected? ::
        CleanValue(fields[name], Submitted(data, name), isEmail).messages)
  }

  // ---------------------------------------------------------------------------
  // The form's clean()

  /** `add_error(name, msg)`: the message joins the field's errors and the field leaves `cleaned_data`. */
  function AddError(c: Cleaning, name: string, msg: string): Cleaning {
    Cleaning(c.cleaned - {name}, c.errors[name := Get(c.errors, name, []) + [msg]])
  }

  const BuildersRole: string := RoleValue(RespondentRole.Builders)

  /** One turn of the loop in `clean`: strip a non-empty answer, then check a builders-only question. */
  function CleanStep(c: Cleaning, role: Option<string>, q: Question): Cleaning {
    var name := AnswerFieldName(q.id);
    var cd := if name in c.cleaned && c.cleaned[name] != "" then c.cleaned[name := Strip(c.cleaned[name])] else c.cleaned;
    if q.targetAudience == TargetAudience.Builders && role == Some(BuildersRole) && (name !in cd || cd[name] == "")
    then AddError(Cleaning(cd, c.errors), name, BuildersRequiredMessage)
    else Cleaning(cd, c.errors)
  }

  /** The loop of `clean` over the form's questions. */
  function CleanRows(c: Cleaning, role: Option<string>, qs: seq<Question>): Cleaning {
    if |qs| == 0 then c else CleanStep(CleanRows(c, role, qs[..|qs| - 1]), role, qs[|qs| - 1])
  }

  /** `cleaned_data.get("respondent_role")`. */
  function RoleOf(cleaned: map<string, string>): Option<string> {
    if RoleField in cleaned then Some(cleaned[RoleField]) else None
  }

  /** `full_clean`: field cleaning, then `clean`. */
  function FormCleaning(qs: seq<Question>, data: map<string, string>, isEmail: string -> bool): Cleaning {
    var c := CleanFields(FormFields(qs), data, isEmail);
    CleanRows(c, RoleOf(c.cleaned), qs)
  }

  predicate DistinctIds(qs: seq<Question>) {
    forall i, j :: 0 <= i < j < |qs| ==> qs[i].id != qs[j].id
  }

  /** The builders-required condition for a question, judged on the value field cleaning left. */
  predicate BuildersMissing(c: Cleaning, role: Option<string>, q: Question) {
    var name := AnswerFieldName(q.id);
    q.targetAudience == TargetAudience.Builders && role == Some(BuildersRole)
    && (name !in c.cleaned || Strip(c.cleaned[name]) == "")
  }

  /** Field `name` has the same clean value and the same errors in `c` and `r`. */
  predicate Unchanged(c: Cleaning, r: Cleaning, name: string) {
    && (name in r.cleaned <==> name in c.cleaned) && (name in c.cleaned ==> r.cleaned[name] == c.cleaned[name])
    && (name in r.errors <==> name in c.errors) && (name in c.errors ==> r.errors[name] == c.errors[name])
  }

  /**
   * What `clean` does to the answer field of `q`, going from `c` to `r`: when the builders
   * condition holds the field leaves `cleaned_data` and gains the builders message; otherwise
   * its value is stripped and its errors stay as they were.
   */
  predicate Checked(c: Cleaning, r: Cleaning, role: Option<string>, q: Question) {
    var name := AnswerFieldName(q.id);
    && (BuildersMissing(c, role, q) ==>
          name !in r.cleaned && name in r.errors && r.errors[name] == Get(c.errors, name, []) + [BuildersRequiredMessage])
    && (!BuildersMissing(c, role, q) ==>
          && (name in r.cleaned <==> name in c.cleaned)
          && (name in c.cleaned ==> r.cleaned[name] == Strip(c.cleaned[name]))
          && (name in r.errors <==> name in c.errors)
          && (name in c.errors ==> r.errors[name] == c.errors[name]))
  }

  lemma CleanStepChecks(c: Cleaning, role: Option<string>, q: Question)
    ensures Checked(c, CleanStep(c, role, q), role, q)
  {
    var name := AnswerFieldName(q.id);
    if name in c.cleaned {
      var v := c.cleaned[name];
      StripIdempotent(v);
      var cd := if v != "" then c.cleaned[name := Strip(v)] else c.cleaned;
      assert name in cd && cd[name] == Strip(v);
    }
  }

  lemma CleanStepElsewhere(c: Cleaning, role: Option<string>, q: Question, name: string)
    requires AnswerFieldName(q.id) != name
    ensures Unchanged(c, CleanStep(c, role, q), name)
  {
  }

  /**
   * `clean`, field by field: a builders-only question whose answer is missing or blank gets
   * "This question is required for builders." (and leaves `cleaned_data`) exactly when the
   * submitted role is builders; otherwise its answer is replaced by its stripped form and its
   * errors stay as they were.
   */
  lemma {:induction false} CleanRowsAt(c: Cleaning, role: Option<string>, qs: seq<Question>, i: nat)
    requires DistinctIds(qs) && i < |qs|
    ensures Checked(c, CleanRows(c, role, qs), role, qs[i])
  {
    var front, q := qs[..|qs| - 1], qs[|qs| - 1];
    var name := AnswerFieldName(qs[i].id);
    var m := CleanRows(c, role, front);
    assert forall j :: 0 <= j < |front| ==> front[j] == qs[j];
    if i == |qs| - 1 {
      forall j | 0 <= j < |front| ensures AnswerFieldName(front[j].id) != name {
        AnswerFieldNameInjective(front[j].id, q.id);
      }
      CleanRowsElsewhere(c, role, front, name);
      CleanStepChecks(m, role, q);
      assert BuildersMissing(m, role, q) == BuildersMissing(c, role, q);
    } else {
      CleanRowsAt(c, role, front, i);
      AnswerFieldNameInjective(q.id, qs[i].id);
      CleanStepElsewhere(m, role, q, name);
    }
  }

  /** `clean` leaves every field that is not one of its questions' answer fields as it was. */
  lemma {:induction false} CleanRowsElsewhere(c: Cleaning, role: Option<string>, qs: seq<Question>, name: string)
    requires forall j :: 0 <= j < |qs| ==> AnswerFieldName(qs[j].id) != name
    ensures Unchanged(c, CleanRows(c, role, qs), name)
  {
    if |qs| > 0 {
      var front := qs[..|qs| - 1];
      assert forall j :: 0 <= j < |front| ==> front[j] == qs[j];
      CleanRowsElsewhere(c, role, front, name);
      CleanStepElsewhere(CleanRows(c, role, front), role, qs[|qs| - 1], name);
    }
  }

  /** Unless the submitted role is builders, `clean` adds no error at all. */
  lemma {:induction false} CleanRowsNoBuildersError(c: Cleaning, role: Option<string>, qs: seq<Question>)
    requires role != Some(BuildersRole)
    ensures CleanRows(c, role, qs).errors == c.errors
  {
    if |qs| > 0 {
      CleanRowsNoBuildersError(c, role, qs[..|qs| - 1]);
    }
  }

  /** A form without errors has a respondent role, and it is one of the two role values. */
  lemma ValidFormHasRole(qs: seq<Question>, data: map<string, string>, isEmail: string -> bool)
    requires FormCleaning(qs, data, isEmail).errors == map[]
    ensures RoleField in FormCleaning(qs, data, isEmail).cleaned
    ensures ParseRole(FormCleaning(qs, data, isEmail).cleaned[RoleField]).Some?
  {
    var fields := FormFields(qs);
    var c := CleanFields(fields, data, isEmail);
    FormFieldsBase(qs);
    forall j | 0 <= j < |qs| ensures AnswerFieldName(qs[j].id) != RoleField {
      AnswerFieldNameInjective(qs[j].id, qs[j].id);
    }
    CleanRowsElsewhere(c, RoleOf(c.cleaned), qs, RoleField);
    assert RoleField in c.cleaned;
  }

  /** After field cleaning, the role `clean` reads is "builders" exactly when that was submitted. */
  lemma SubmittedRole(qs: seq<Question>, data: map<string, string>, isEmail: string -> bool)
    ensures var c := CleanFields(FormFields(qs), data, isEmail);
      RoleOf(c.cleaned) == Some(BuildersRole) <==> Get(data, RoleField, "") == BuildersRole
  {
    FormFieldsBase(qs);
  }

  /**
   * The builders rule from the submitted data: a builders-only question's field carries
   * "This question is required for builders." exactly when the submitted role is builders and
   * the stripped answer is blank or was rejected for a null character.
   */
  lemma BuildersRuleOnSubmission(qs: seq<Question>, data: map<string, string>, isEmail: string -> bool, i: nat)
    requires DistinctIds(qs) && i < |qs| && qs[i].targetAudience == TargetAudience.Builders
    ensures var r, name := FormCleaning(qs, data, isEmail), AnswerFieldName(qs[i].id);
      var answer := Strip(Get(data, name, ""));
      (name in r.errors && BuildersRequiredMessage in r.errors[name]) <==>
        Get(data, RoleField, "") == BuildersRole && (answer == "" || NullCharacter in answer)
  {
    var c := CleanFields(FormFields(qs), data, isEmail);
    var r := CleanRows(c, RoleOf(c.cleaned), qs);
    assert r == FormCleaning(qs, data, isEmail);
    BuildersAnswerCleaned(qs, data, isEmail, i);
    SubmittedRole(qs, data, isEmail);
    CleanRowsAt(c, RoleOf(c.cleaned), qs, i);
    BuildersRuleStep(c, r, RoleOf(c.cleaned), qs[i], Strip(Get(data, AnswerFieldName(qs[i].id), "")));
  }

  /** The builders rule for one answer, from what field cleaning left for it. */
  lemma BuildersRuleStep(c: Cleaning, r: Cleaning, role: Option<string>, q: Question, answer: string)
    requires Checked(c, r, role, q) && q.targetAudience == TargetAudience.Builders
    requires var name := AnswerFieldName(q.id);
      && (name in c.cleaned <==> NullCharacter !in answer)
      && (name in c.cleaned ==> Strip(c.cleaned[name]) == answer)
      && (name in c.errors ==> c.errors[name] == [NullCharacterMessage])
    ensures var name := AnswerFieldName(q.id);
      (name in r.errors && BuildersRequiredMessage in r.errors[name]) <==>
        role == Some(BuildersRole) && (answer == "" || NullCharacter in answer)
  {
    assert BuildersRequiredMessage !in [NullCharacterMessage];
  }

  /** Field cleaning of a builders-only answer: the stripped text, or the null-character error. */
  lemma BuildersAnswerCleaned(qs: seq<Question>, data: map<string, string>, isEmail: string -> bool, i: nat)
    requires DistinctIds(qs) && i < |qs| && qs[i].targetAudience == TargetAudience.Builders
    ensures var c, name := CleanFields(FormFields(qs), data, isEmail), AnswerFieldName(qs[i].id);
      var answer := Strip(Get(data, name, ""));
      && (name in c.cleaned <==> NullCharacter !in answer)
      && (name in c.cleaned ==> c.cleaned[name] == answer && Strip(c.cleaned[name]) == answer)
      && (name in c.errors ==> c.errors[name] == [NullCharacterMessage])
  {
    FormFieldsAt(qs, i);
    OptionalTextCleaned(FormFields(qs), data, isEmail, AnswerFieldName(qs[i].id));
  }

  /** Field cleaning of an optional text field: the stripped text, or the null-character error. */
  lemma OptionalTextCleaned(fields: map<string, FormField>, data: map<string, string>, isEmail: string -> bool, name: string)
    requires name in fields && fields[name].kind == Text && !fields[name].required
    ensures var c, answer := CleanFields(fields, data, isEmail), Strip(Get(data, name, ""));
      && (name in c.cleaned <==> NullCharacter !in answer)
      && (name in c.cleaned ==> c.cleaned[name] == answer && Strip(c.cleaned[name]) == answer)
      && (name in c.errors ==> c.errors[name] == [NullCharacterMessage])
  {
    var c, answer := CleanFields(fields, data, isEmail), Strip(Get(data, name, ""));
    var r := CleanText(fields[name], answer, isEmail);
    assert CleanValue(fields[name], Submitted(data, name), isEmail) == r;
    OptionalTextOutcome(fields[name], answer, isEmail);
    StripIdempotent(Get(data, name, ""));
    OutcomeRecorded(c, name, r);
  }

  /** Where a field's outcome lands in the cleaning of all fields. */
  lemma OutcomeRecorded(c: Cleaning, name: string, r: FieldOutcome)
    requires name in c.cleaned || name in c.errors
    requires !(name in c.cleaned && name in c.errors)
    requires name in c.cleaned ==> r == Accepted(c.cleaned[name])
    requires name in c.errors ==> r == Rejected(c.errors[name])
    ensures name in c.cleaned <==> r.Accepted?
    ensures name in c.cleaned ==> c.cleaned[name] == r.value
    ensures name in c.errors ==> c.errors[name] == r.messages
  {
  }

  /** An optional text field accepts its (stripped) value unless it holds a null character. */
  lemma OptionalTextOutcome(f: FormField, v: string, isEmail: string -> bool)
    requires f.kind == Text && !f.required
    ensures var r := CleanText(f, v, isEmail);
      && (r.Accepted? <==> NullCharacter !in v)
      && (r.Accepted? ==> r.value == v)
      && (r.Rejected? ==> r.messages == [NullCharacterMessage])
  {
  }

  /** In a valid form every answer is the submitted text with surrounding whitespace stripped. */
  lemma ValidFormAnswersStripped(qs: seq<Question>, data: map<string, string>, isEmail: string -> bool, i: nat)
    requires DistinctIds(qs) && i < |qs|
    requires FormCleaning(qs, data, isEmail).errors == map[]
    ensures var name := AnswerFieldName(qs[i].id);
      name in FormCleaning(qs, data, isEmail).cleaned
      && FormCleaning(qs, data, isEmail).cleaned[name] == Strip(Get(data, name, ""))
  {
    var fields := FormFields(qs);
    var c := CleanFields(fields, data, isEmail);
    var name := AnswerFieldName(qs[i].id);
    FormFieldsAt(qs, i);
    TextCleaned(fields, data, isEmail, name);
    StripIdempotent(Get(data, name, ""));
    CleanRowsAt(c, RoleOf(c.cleaned), qs, i);
    ValidStep(c, FormCleaning(qs, data, isEmail), RoleOf(c.cleaned), qs[i], Strip(Get(data, name, "")));
  }

  /** Field cleaning of a text field: either an error, or the stripped text. */
  lemma TextCleaned(fields: map<string, FormField>, data: map<string, string>, isEmail: string -> bool, name: string)
    requires name in fields && fields[name].kind == Text
    ensures var c := CleanFields(fields, data, isEmail);
      && (name in c.cleaned || name in c.errors)
      && (name in c.cleaned ==> c.cleaned[name] == Strip(Get(data, name, "")))
  {
    var c := CleanFields(fields, data, isEmail);
    var r := CleanText(fields[name], Strip(Get(data, name, "")), isEmail);
    assert CleanValue(fields[name], Submitted(data, name), isEmail) == r;
    OutcomeRecorded(c, name, r);
  }

  /** When `clean` reports no error, a field that field cleaning accepted keeps its (already stripped) value. */
  lemma ValidStep(c: Cleaning, r: Cleaning, role: Option<string>, q: Question, answer: string)
    requires Checked(c, r, role, q) && r.errors == map[]
    requires var name := AnswerFieldName(q.id);
      && (name in c.cleaned || name in c.errors)
      && (name in c.cleaned ==> c.cleaned[name] == answer && Strip(answer) == answer)
    ensures AnswerFieldName(q.id) in r.cleaned && r.cleaned[AnswerFieldName(q.id)] == answer
  {
  }

  // ---------------------------------------------------------------------------
  // The form object

  class SurveyForm {
    const data: map<string, string>
    const questions: seq<Question>
    const isEmail: string -> bool
    var fields: map<string, FormField>
    var cleanedData: map<string, string>
    var errors: map<string, seq<string>>

    /** `SurveyForm(data, questions=questions)`: the declared fields, then one answer field per question. */
    constructor (data: map<string, string>, questions: seq<Question>, isEmail: string -> bool)
      ensures this.data == data && this.questions == questions && this.isEmail == isEmail
      ensures fields == FormFields(questions)
      ensures cleanedData == map[] && errors == map[]
    {
      this.data, this.questions, this.isEmail := data, questions, isEmail;
      fields, cleanedData, errors := BaseFields(), map[], map[];
      new;
      var i := 0;
      while i < |questions|
        invariant 0 <= i <= |questions|
        invariant fields == FormFields(questions[..i])
        invariant cleanedData == map[] && errors == map[]
      {
        var q := questions[i];
        fields := fields[AnswerFieldName(q.id) := AnswerField(q)];
        assert questions[..i + 1][..i] == questions[..i];
        i := i + 1;
      }
      assert questions[..|questions|] == questions;
    }

    /** The form's `clean`: the loop over the questions, after reading the submitted role once. */
    method Clean()
      modifies this
      ensures Cleaning(cleanedData, errors) == CleanRows(old(Cleaning(cleanedData, errors)), RoleOf(old(cleanedData)), questions)
      ensures fields == old(fields)
    {
      var role := RoleOf(cleanedData);
      ghost var start := Cleaning(cleanedData, errors);
      var i := 0;
      while i < |questions|
        invariant 0 <= i <= |questions|
        invariant Cleaning(cleanedData, errors) == CleanRows(start, role, questions[..i])
        invariant fields == old(fields)
      {
        var q := questions[i];
        var name := AnswerFieldName(q.id);
        ghost var before := Cleaning(cleanedData, errors);
        if name in cleanedData && cleanedData[name] != "" {
          cleanedData := cleanedData[name := Strip(cleanedData[name])];
        }
        if q.targetAudience == TargetAudience.Builders && role == Some(BuildersRole)
           && (name !in cleanedData || cleanedData[name] == "")
        {
          errors := errors[name := Get(errors, name, []) + [BuildersRequiredMessage]];
          cleanedData := cleanedData - {name};
        }
        assert Cleaning(cleanedData, errors) == CleanStep(before, role, q);
        assert questions[..i + 1][..i] == questions[..i];
        i := i + 1;
      }
      assert questions[..|questions|] == questions;
    }

    /** `is_valid()` on the bound form: run `full_clean` and report whether no error was recorded. */
    method IsValid() returns (valid: bool)
      requires fields == FormFields(questions)
      modifies this
      ensures Cleaning(cleanedData, errors) == FormCleaning(questions, data, isEmail)
      ensures valid <==> errors == map[]
      ensures fields == old(fields)
    {
      var c := CleanFields(fields, data, isEmail);
      cleanedData, errors := c.cleaned, c.errors;
      Clean();
      valid := errors == map[];
    }
  }
}
