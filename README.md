# Survey app: a verified model

This project models the core of a small Django survey application. The app shows a questionnaire,
stores each submission as one `SurveyResponse` with one `SurveyAnswer` per answered question, and
exports the responses as one wide table with a column per active question. Its question bank and
the option lists of its multiple-choice questions are maintained by data migrations.

The model is written in Dafny and split by the program's own files:

| file | models |
|---|---|
| `wrappers.dfy` | `Option` |
| `builtins.dfy` | the Python built-ins the core relies on: `str.strip`, decimal formatting of an id, slicing, `" • ".join`, building a dict from pairs |
| `models.dfy` | the two enumerations, the four records and their `__str__` methods |
| `store.dfy` | the database as a class `Database`: tables, constraints (primary keys, the unique pairs, the `CASCADE`/`PROTECT` foreign keys) and the ORM operations the core performs (`update_or_create`, `create`, `filter(...).delete()`, `bulk_create`); the "active questions ordered by id" query |
| `forms.dfy` | `SurveyForm` as a class: its fields, Django's field cleaning as a pure function, the form-level `clean` as a loop, and `is_valid` |
| `views.dfy` | the POST and GET paths of `survey_form`: role derivation, the saved response and answer batch, the question/field pairs |
| `resources.dfy` | `SurveyResponseDetailedResource`: its columns, headers and rows as a class with methods proved against specification functions |
| `migrations.dfy` | the data migrations 0002 and 0006–0012 as methods on `Database`; the effect of each is a function of the tables it starts from, with closed forms, idempotence and apply/revert lemmas |

Each state-changing operation is a method whose `ensures` gives the whole new state of the
database as a function of the old one, and every such method keeps `Database.Valid()`, which
holds all constraints of the schema. What the source promises about those functions (which row a
migration leaves behind, that rerunning it changes nothing, that the export's cells are the
response's answers) is stated as lemmas.

Some behaviours of the code are worth knowing before reading the contracts:

- An answer field is required exactly when its question is meant for everyone (`surveys/forms.py:39`).
  Builders-only questions are optional at field level and are checked only in `clean`.
- `clean` demands builders-only answers only when the *submitted* `respondent_role` is builders
  (`surveys/forms.py:58-69`). The view stores the builders role also when question 1 was answered
  "developer" or "founder" (`surveys/views.py:23-27`). So a respondent who is classified as a
  builder through question 1 may leave builders-only questions blank.
- Migration 0011 recreates options with `create`. A list that repeats a value violates the unique
  (question, value) pair and the migration fails as a whole. The model returns failure and leaves
  the tables unchanged.
- The arrow in `SurveyAnswer.__str__` is stored in the file as the three characters U+00E2 U+2020
  U+2019 (a mis-decoded "→"). It is modelled as written.

## Model

| member | source | states |
|---|---|---|
| Models.ParseAudience | surveys/models.py:5-7 | a stored value parses to the audience whose value it is, and to nothing exactly when no audience has that value |
| Models.ParseRole | surveys/models.py:30-32 | a stored value parses to the role whose value it is, and to nothing exactly when no role has that value |
| Models.EnumValuesRoundTrip | surveys/models.py:5-7 | every audience and role round-trips through its stored value; the general role and the all audience share the value "all", the builders role and audience share "builders" |
| Models.QuestionStr | surveys/models.py:25-26 | `str(question)` is the decimal id, ". ", then the first min(50, length) characters of the prompt |
| Models.QuestionStrShortPrompt | surveys/models.py:25-26 | a prompt of at most 50 characters appears whole; questions with different ids never print alike |
| Models.DigitsBeforeDot | surveys/models.py:26 | two "digits. text" strings that are equal have equal digit prefixes |
| Models.ResponseStr | surveys/models.py:47-49 | `str(response)` ends with " (<role label>)" and starts with the name, or "Anonymous responder" when the name is empty |
| Models.AnswerStr | surveys/models.py:70-71 | `str(answer)` is "Response <id>", the arrow separator, then "Question <id>" |
| Builtins.TrimLeft | surveys/forms.py:63 | removes exactly a leading run of whitespace: the result is a suffix, the removed part is all whitespace, the result does not start with whitespace |
| Builtins.TrimRight | surveys/forms.py:63 | removes exactly a trailing run of whitespace, symmetrically |
| Builtins.Strip | surveys/forms.py:63 | `str.strip()`: never longer, and neither starts nor ends with whitespace |
| Builtins.StripUntrimmed | surveys/forms.py:63 | a string without surrounding whitespace strips to itself |
| Builtins.StripIdempotent | surveys/forms.py:63 | stripping twice equals stripping once |
| Builtins.StripEmptyIff | surveys/forms.py:62 | a value strips to "" exactly when it is all whitespace |
| Builtins.NatToString | surveys/forms.py:45 | the decimal form of an id: digits only, a single digit exactly below 10, no leading zero |
| Builtins.NatToStringInjective | surveys/forms.py:45 | different ids have different decimal forms |
| Builtins.Take | surveys/models.py:26 | `s[:n]` is the prefix of length min(len(s), n) |
| Builtins.Join | surveys/forms.py:54 | a join starts with its first part |
| Builtins.JoinSnoc | surveys/forms.py:54 | joining one more part appends the separator and that part |
| Builtins.DictOf | surveys/resources.py:130 | a dict built from pairs holds every key of the pairs, and each entry comes from one of them |
| Builtins.DictOfLast | surveys/views.py:42 | the entry of a key is the value of its last pair |
| Builtins.DictOfAbsent | surveys/resources.py:134 | a key of no pair is absent |
| Store.UpsertOptionRow | surveys/migrations/0006_seed_question_options.py:73-77 | the (question, value) row gets the label and order; an existing row keeps its id, a new row takes the next id; no other row changes |
| Store.UpsertOptionRowValid | surveys/migrations/0005_questionoption.py:12-41 | an option upsert for an existing question keeps the option table's constraints (unique pair, fresh ids, the foreign key) |
| Store.AnswersNotOf | surveys/models.py:53-57 | the `CASCADE` side of deleting responses: exactly the answers of other responses remain |
| Store.AnswersNotOfValid | surveys/models.py:53-57 | deleting responses together with their answers keeps the answer constraints |
| Store.Database.constructor | surveys/models.py:4-71 | an empty database satisfies every constraint |
| Store.Database.UpsertQuestion | surveys/migrations/0002_seed_questions.py:70 | one question upsert; nothing else changes; constraints kept |
| Store.Database.UpsertOption | surveys/migrations/0006_seed_question_options.py:73-77 | one option upsert as `UpsertOptionRow`; nothing else changes; constraints kept |
| Store.Database.CreateOption | surveys/migrations/0011_new_survey_structure.py:101-106 | one option `create`, which fails on an existing pair and then changes nothing |
| Store.Database.DeleteOptionsOf | surveys/migrations/0011_new_survey_structure.py:98 | deletes the options of the given questions and nothing else |
| Store.Database.DeleteOptionsExcept | surveys/migrations/0010_refresh_question_options.py:131-133 | deletes the options of a question whose value is not listed and nothing else |
| Store.Database.DeleteQuestions | surveys/models.py:58-62 | deleting questions fails, changing nothing, exactly when an answer refers to one of them (`PROTECT`); otherwise it removes them and their options |
| Store.Database.DeleteResponses | surveys/models.py:53-57 | deleting responses also deletes their answers (`CASCADE`) |
| Store.Database.CreateResponse | surveys/views.py:29-33 | `objects.create` stores a response under a fresh id with the given fields and the current time |
| Store.Database.BulkCreateAnswers | surveys/views.py:56-57 | the batch is inserted as a whole exactly when the answer constraints still hold with it (unique pair, both foreign keys); otherwise nothing is inserted |
| Store.Database.RestoreCatalog | surveys/migrations/0011_new_survey_structure.py:83-106 | puts back question and option tables that satisfy the constraints; this is the rollback of a failed migration |
| Store.Least | surveys/models.py:22-23 | a non-empty set of ids has a least element |
| Store.CollectStep | surveys/resources.py:64 | taking the least remaining id keeps the ordered, complete prefix of the active-question list |
| Store.CollectOrdered | surveys/resources.py:64 | the extended list is still in ascending id and holds only active, stored questions |
| Store.CollectCovers | surveys/resources.py:64 | every active question with an id below those remaining is in the extended list |
| Store.ActiveQuestions | surveys/resources.py:64 | `filter(is_active=True).order_by('id')`: exactly the active questions, in ascending id |
| Store.BelowLast | surveys/models.py:22-23 | in an ascending list every element's id is at most the last one's |
| Store.FrontIn | surveys/models.py:22-23 | containment of two ascending lists with the same last element carries over to their fronts |
| Store.IncreasingFront | surveys/models.py:22-23 | the front of an ascending list is ascending |
| Store.EmptyTogether | surveys/models.py:22-23 | lists with the same elements are empty together |
| Store.SortedListsEqual | surveys/models.py:22-23 | two ascending lists with the same elements are equal |
| Store.ActiveListUnique | surveys/resources.py:64 | the active-question query has exactly one answer, so the constructor, the headers and the export see the same questions |
| Forms.AnswerFieldName | surveys/forms.py:43-45 | the field name is "question_" followed by the decimal id |
| Forms.AnswerFieldNameInjective | surveys/forms.py:43-45 | different questions get different field names, none of them a respondent field's name |
| Forms.HelpTextCases | surveys/forms.py:47-54 | the help text is the category, then "Builders only" for builders questions, then the note when it is non-empty, joined by " • " |
| Forms.AnswerNamesAt | surveys/forms.py:29-31 | every question's field name is among the form's answer fields |
| Forms.AnswerNamesFrom | surveys/forms.py:29-31 | every answer field belongs to some question |
| Forms.FormFieldsKeys | surveys/forms.py:26-41 | the form's fields are the three respondent fields plus one field per question |
| Forms.FormFieldsBase | surveys/forms.py:9-24 | the respondent fields are left as declared |
| Forms.FormFieldsAt | surveys/forms.py:31-41 | a question's field is a text field labelled with the prompt, required exactly for all-audience questions, with the built help text |
| Forms.ValidatorMessages | surveys/forms.py:14-18 | the validators report nothing exactly when the value has no null character and, for an email field, passes the email check |
| Forms.CleanText | surveys/forms.py:9-18 | a stripped text value is rejected with at least one message, or accepted unchanged without null characters, empty only when not required, and a valid email for the email field |
| Forms.CleanChoice | surveys/forms.py:19-24 | the role field accepts "" only when not required, and otherwise only a role's value |
| Forms.CleanValue | surveys/forms.py:9-41 | field cleaning: text fields keep the stripped value, the role field keeps the submitted value, and each accepted value meets its field's checks |
| Forms.CleanFields | surveys/forms.py:57 | `super().clean()`: each field ends up in exactly one of cleaned data and errors, with its own cleaning outcome |
| Forms.CleanStepChecks | surveys/forms.py:59-69 | one iteration strips a present answer and adds the builders error exactly when the question is for builders, the submitted role is builders and the answer is empty; an error removes the value from cleaned data |
| Forms.CleanStepElsewhere | surveys/forms.py:59-69 | one iteration changes no other field |
| Forms.CleanRowsAt | surveys/forms.py:59-69 | with distinct ids, each question's field ends up as its own iteration leaves it |
| Forms.CleanRowsElsewhere | surveys/forms.py:59-69 | the loop leaves every non-answer field alone |
| Forms.CleanRowsNoBuildersError | surveys/forms.py:64-69 | unless the submitted role is builders, the loop adds no error |
| Forms.ValidFormHasRole | surveys/forms.py:19-24 | a valid form has a cleaned role that names a role |
| Forms.SubmittedRole | surveys/forms.py:58 | the role `clean` checks is builders exactly when the submitted role is "builders" |
| Forms.BuildersRuleOnSubmission | surveys/forms.py:64-69 | a builders-only question gets the builders error exactly when the submitted role is builders and the stripped answer is empty (or holds a null character) |
| Forms.BuildersRuleStep | surveys/forms.py:64-69 | the same statement for one iteration, from what field cleaning left |
| Forms.BuildersAnswerCleaned | surveys/forms.py:39 | a builders-only answer field is optional: it is cleaned to the stripped answer unless it holds a null character |
| Forms.OptionalTextCleaned | surveys/forms.py:9-13 | an optional text field is cleaned to the stripped value, or rejected only for a null character |
| Forms.OutcomeRecorded | surveys/forms.py:57 | where cleaning put a field tells what its outcome was |
| Forms.OptionalTextOutcome | surveys/forms.py:9-13 | an optional text value is accepted unchanged unless it holds a null character |
| Forms.ValidFormAnswersStripped | surveys/forms.py:61-63 | in a valid form every answer field holds the stripped submitted text |
| Forms.TextCleaned | surveys/forms.py:31-41 | a text field is cleaned or in error, and when cleaned holds the stripped value |
| Forms.ValidStep | surveys/forms.py:59-69 | an iteration that adds no error keeps a stripped answer in cleaned data |
| Forms.SurveyForm.constructor | surveys/forms.py:26-41 | the form holds its data and questions, the respondent fields and one field per question, and nothing cleaned yet |
| Forms.SurveyForm.Clean | surveys/forms.py:56-70 | the loop computes the form-level cleaning of the questions from the field-level result, using the role cleaned before the loop |
| Forms.SurveyForm.IsValid | surveys/forms.py:56-70 | `is_valid()` runs field cleaning then `clean`, and is true exactly when no error remains |
| Views.StoredRole | surveys/views.py:22-27 | builders when question 1's answer is "developer" or "founder" or the cleaned role is builders; general when neither holds and the cleaned role is "all" or absent |
| Views.ValidFormStoresRole | surveys/views.py:20-27 | for a valid form the derived role is always a role |
| Views.ResolveAnswerCases | surveys/views.py:41-46 | an answer that is not an option's value is stored as typed; otherwise the label of the last option with that value is stored |
| Views.ResolveAgainstTable | surveys/views.py:40-46 | against the question's prefetched options, the stored text is the option's label when the value is an option of that question and the answer itself otherwise |
| Views.AnswersForOrdered | surveys/views.py:34-55 | the batch has at most one answer per question, all for the new response, in ascending question id |
| Views.AnswersForAt | surveys/views.py:37-39 | an empty answer creates no row; a non-empty one creates its row |
| Views.AnswersForSnoc | surveys/views.py:35-55 | one more question adds its answer at the end of the batch, or nothing |
| Views.AnswersBeforeLast | surveys/views.py:37-39 | the statement of `AnswersForAt` for the last question |
| Views.SaveFitsSchema | surveys/views.py:49-57 | the batch of a fresh response never violates the answer constraints when it is built from the active questions |
| Views.StoredAnswerOfSubmission | surveys/views.py:37-48 | a non-empty stripped answer is stored, as the submitted text or its option's label; for a question without options it is stored as typed |
| Views.BuildAnswers | surveys/views.py:34-55 | the loop builds the batch the specification function describes |
| Views.SaveSubmission | surveys/views.py:21-67 | creates the response with the stripped name and email and the derived role, then inserts the batch or nothing; the response stays when insertion fails |
| Views.SubmitSurvey | surveys/views.py:18-73 | an invalid form changes nothing and returns its errors; a valid one saves as `SaveSubmission` does; questions and options never change |
| Views.SubmitSaves | surveys/views.py:29-57 | with the active questions, inserting the batch right after creating the response always succeeds |
| Views.BlankForm | surveys/views.py:75 | a GET builds an unbound form exactly when there are questions |
| Views.QuestionFieldPairs | surveys/views.py:77-88 | one pair per question, in order, with that question's own field; none without a form |
| Views.PairedFieldIsAnswerField | surveys/views.py:80-81 | the paired field is the question's answer field |
| Resources.ShortPrompt | surveys/resources.py:68 | a prompt of at most 60 characters is kept; a longer one is its first 60 characters and "..." |
| Resources.QuestionFieldNameInjective | surveys/resources.py:66 | different questions get different attribute names |
| Resources.ColumnNameShape | surveys/resources.py:69 | a column is "Q<id>: " followed by the short prompt |
| Resources.DehydrateEmail | surveys/resources.py:75-76 | the email as stored |
| Resources.AnswersOfResponse | surveys/resources.py:130 | `response.answers.all()`: exactly the answers of that response |
| Resources.RowMatchesHeaders | surveys/resources.py:120-127 | a row is as long as the headers and starts with the id, the name or "Anonymous", the email, the role label, and the formatted creation time or "" |
| Resources.DehydrateAgreesWithExport | surveys/resources.py:72-82 | the dehydrate methods give the same name, email, role and date cells as the row `export` builds inline |
| Resources.CellIsAnswer | surveys/resources.py:129-134 | the cell under a question holds the response's answer to it, or "" when it has none |
| Resources.AnswerTextAbsent | surveys/resources.py:134 | a question the response did not answer has no entry |
| Resources.AnswerTextPresent | surveys/resources.py:130 | every answer of the response has its text under its question id |
| Resources.OnlyAnswer | surveys/models.py:66-68 | a response has at most one answer per question |
| Resources.QuestionColumnsKeys | surveys/resources.py:65-70 | every attribute the constructor adds belongs to a question |
| Resources.QuestionColumnsAt | surveys/resources.py:65-70 | every listed question gets its attribute, with its column name |
| Resources.ColumnsOfTable | surveys/resources.py:61-70 | the dynamic columns are exactly those of the active questions, each with its column name |
| Resources.DetailedResource.constructor | surveys/resources.py:61-70 | the resource gets exactly one column per active question |
| Resources.DetailedResource.GetExportHeaders | surveys/resources.py:88-96 | the five fixed headers, then one column per active question in ascending id |
| Resources.DetailedResource.Export | surveys/resources.py:98-147 | the headers as above and one row per response of the queryset, built from the answers in the database |
| Resources.RowsForSnoc | surveys/resources.py:120-136 | one more response appends its row |
| Resources.ColumnHeaders | surveys/resources.py:112-117 | the header loop computes the fixed headers followed by the column names |
| Resources.BuildRow | surveys/resources.py:121-134 | the row loop computes the fixed cells followed by one answer cell per question id |
| Migrations.SeedIds | surveys/migrations/0002_seed_questions.py:75 | the ids of the seeds |
| Migrations.LastSeedFor | surveys/migrations/0002_seed_questions.py:69-70 | the last seed with an id, present exactly when some seed has that id |
| Migrations.SeededQuestionActivity | surveys/migrations/0002_seed_questions.py:70 | an upserted row depends on the old row only through whether it was active or absent |
| Migrations.UpsertQuestionsClosedForm | surveys/migrations/0002_seed_questions.py:67-70 | the loop of upserts equals one table update: each seeded id takes its last seed, keeping whether the old row was active |
| Migrations.SeededTableSnoc | surveys/migrations/0002_seed_questions.py:69-70 | the closed form extends by one seed |
| Migrations.UpsertQuestionsListed | surveys/migrations/0007_expand_question_bank.py:50-53 | after the pass a seeded question has exactly the seed's fields, and is active unless it was inactive before |
| Migrations.LastSeedIs | surveys/migrations/0002_seed_questions.py:69-70 | a seed that no later seed overrides is the last one for its id |
| Migrations.UpsertQuestionsUnlisted | surveys/migrations/0009_refresh_question_copy.py:122-125 | the pass adds exactly the seeded ids and leaves every other question unchanged |
| Migrations.UpsertQuestionsIdempotent | surveys/migrations/0009_refresh_question_copy.py:122-125 | running a question pass twice equals running it once |
| Migrations.ApplyThenRevert | surveys/migrations/0009_refresh_question_copy.py:122-131 | reverting with originals that cover the applied ids gives what the originals alone give, so a table that already held the originals is restored |
| Migrations.UpsertQuestionsKeyed | surveys/migrations/0002_seed_questions.py:67-70 | the pass keeps every question under its own id |
| Migrations.LastWrite | surveys/migrations/0006_seed_question_options.py:72-77 | the last option write to a key, absent exactly when nothing writes to it |
| Migrations.LastWriteIs | surveys/migrations/0006_seed_question_options.py:72-77 | a write that nothing after it overrides is the last one |
| Migrations.LastWriteAppend | surveys/migrations/0006_seed_question_options.py:72-77 | the last write of two batches is the second's, or the first's when the second has none |
| Migrations.ApplyWritesAt | surveys/migrations/0006_seed_question_options.py:72-77 | after a run of upserts each key holds what its last write wrote (label, order, its old id or a new one), or is as before |
| Migrations.ApplyWritesNextId | surveys/migrations/0006_seed_question_options.py:72-77 | the auto-increment counter never goes back, and stays put when every written row exists |
| Migrations.ApplyWritesIdempotent | surveys/migrations/0006_seed_question_options.py:72-77 | running the same upserts twice equals running them once |
| Migrations.ApplyWritesAppend | surveys/migrations/0006_seed_question_options.py:72-77 | two batches of upserts run one after the other equal their concatenation |
| Migrations.Values | surveys/migrations/0010_refresh_question_options.py:132 | `[value for value, _ in options]`, as a set |
| Migrations.LastIndex | surveys/migrations/0006_seed_question_options.py:72 | the last position of a listed value |
| Migrations.ChoiceContent | surveys/migrations/0006_seed_question_options.py:72-77 | the label and order a list leaves per value is defined exactly for the listed values |
| Migrations.ChoiceWritesLast | surveys/migrations/0006_seed_question_options.py:72-77 | the last write to a key of a list is its content for that value; keys outside the list are not written |
| Migrations.ChoiceWritesListed | surveys/migrations/0006_seed_question_options.py:72-77 | a listed value's last write is at its last position |
| Migrations.ChoiceWritesUnlisted | surveys/migrations/0006_seed_question_options.py:72-77 | an unlisted key is not written |
| Migrations.GroupWriteAt | surveys/migrations/0010_refresh_question_options.py:131-139 | after pruning, upserting a list leaves each key of that question with the list's content, and others as they were |
| Migrations.ContentOfList | surveys/migrations/0010_refresh_question_options.py:131-139 | a question whose rows are exactly the listed values, with the listed content, has the list's content |
| Migrations.ContentKept | surveys/migrations/0006_seed_question_options.py:67-71 | a question whose rows were not touched keeps its content |
| Migrations.GroupIds | surveys/migrations/0006_seed_question_options.py:83 | the question ids of a mapping |
| Migrations.Listed | surveys/migrations/0006_seed_question_options.py:67-71 | the entry of the mapping for an existing question; a missing question is skipped |
| Migrations.ListedIs | surveys/migrations/0006_seed_question_options.py:67-71 | an entry for an existing question is the one the pass uses |
| Migrations.FrontNotListed | surveys/migrations/0006_seed_question_options.py:67 | a dict has each key once, so the last entry's question is not among the earlier ones |
| Migrations.SeedOptionsAsWrites | surveys/migrations/0006_seed_question_options.py:63-77 | the seed pass is one run of option upserts |
| Migrations.SeedWritesLast | surveys/migrations/0006_seed_question_options.py:63-77 | the last write of the seed pass to a key comes from its question's entry, or nothing when the question is not listed or missing |
| Migrations.SeedOptionsAt | surveys/migrations/0008_seed_additional_question_options.py:49-63 | after seeding, a listed value's row has the list's label and order, and every other row is as before; no row is removed |
| Migrations.SeedOptionsIdempotent | surveys/migrations/0008_seed_additional_question_options.py:49-63 | seeding twice equals seeding once |
| Migrations.RefreshOptionsAt | surveys/migrations/0010_refresh_question_options.py:122-139 | after a refresh, an existing listed question's rows are exactly its listed values, with the list's content; other questions' rows are as before; the counter never goes back |
| Migrations.RefreshCovers | surveys/migrations/0010_refresh_question_options.py:122-139 | after a refresh, every listed value of an existing question has a row |
| Migrations.RefreshNextId | surveys/migrations/0010_refresh_question_options.py:134-139 | a refresh over rows that already exist takes no new id |
| Migrations.RefreshOptionsIdempotent | surveys/migrations/0010_refresh_question_options.py:142-143 | rerunning a refresh changes nothing, ids included |
| Migrations.RefreshOptionsContent | surveys/migrations/0010_refresh_question_options.py:142-143 | an existing question's options become exactly its new list |
| Migrations.RefreshThenRevert | surveys/migrations/0010_refresh_question_options.py:142-147 | after applying and reverting, a question in the old mapping has exactly its old options, and a question in neither mapping is untouched |
| Migrations.CreateWritesOk | surveys/migrations/0011_new_survey_structure.py:100-106 | a run of `create` calls succeeds exactly when every key is new and distinct, and then equals the same run of upserts |
| Migrations.FreshKeysSnoc | surveys/migrations/0011_new_survey_structure.py:100-106 | one more `create` succeeds exactly when its key is new to the table and to the earlier calls |
| Migrations.ReplaceGroupOk | surveys/migrations/0011_new_survey_structure.py:98-106 | deleting a question's options and creating its list succeeds exactly when the list repeats no value, and then equals pruning plus upserts |
| Migrations.ReplaceSucceedsSnoc | surveys/migrations/0011_new_survey_structure.py:92-106 | the pass succeeds on one more entry exactly when it does on the others and that entry's list (for an existing question) repeats no value |
| Migrations.ReplaceOptionsAt | surveys/migrations/0011_new_survey_structure.py:92-106 | the option pass succeeds exactly when no list of an existing question repeats a value; then a listed question's rows are exactly its list, newly created, and others are as before |
| Migrations.ReplaceOptionsContent | surveys/migrations/0011_new_survey_structure.py:92-106 | on success an existing question's options become exactly its new list |
| Migrations.ReplaceOptionsRerun | surveys/migrations/0011_new_survey_structure.py:92-106 | rerunning the option pass succeeds and leaves each question's option content as it was (only the ids change) |
| Migrations.AddSuggestionEffect | surveys/migrations/0012_add_suggestion_question.py:12-23 | the question gets the seed's fields and no options; every other question and option is kept; running it again changes nothing |
| Migrations.UpsertQuestions | surveys/migrations/0002_seed_questions.py:67-70 | the loop of question upserts computes the pass's function; options, responses and answers are unchanged |
| Migrations.DeleteListedQuestions | surveys/migrations/0002_seed_questions.py:73-75 | the reverse of a question pass deletes the seeded questions and their options, or fails when an answer refers to one |
| Migrations.ChoiceWritesPrefix | surveys/migrations/0006_seed_question_options.py:72 | the writes of a prefix of a list are a prefix of its writes |
| Migrations.ApplyChoicesStep | surveys/migrations/0006_seed_question_options.py:72-77 | one more choice is one more upsert |
| Migrations.UpsertChoices | surveys/migrations/0006_seed_question_options.py:72-77 | the inner loop computes the upserts of one question's list |
| Migrations.SeedOptions | surveys/migrations/0006_seed_question_options.py:63-77 | the seed pass computes `SeedOptionsRows` |
| Migrations.UnseedOptions | surveys/migrations/0006_seed_question_options.py:80-84 | the reverse deletes every option of the listed questions |
| Migrations.UpdateOptions | surveys/migrations/0010_refresh_question_options.py:122-139 | the refresh pass computes `RefreshOptionsRows` |
| Migrations.CreateWritesPrefixNone | surveys/migrations/0011_new_survey_structure.py:100-106 | once a `create` fails, the whole loop fails |
| Migrations.CreateChoices | surveys/migrations/0011_new_survey_structure.py:100-106 | the inner loop of `create` calls succeeds as `CreateWrites` says, with its table |
| Migrations.ApplyNewStructure | surveys/migrations/0011_new_survey_structure.py:83-106 | upserts the questions, then replaces the listed option lists; on failure both tables are as before |
| Migrations.ReplacePrefixNone | surveys/migrations/0011_new_survey_structure.py:92-106 | once one entry fails, the whole pass fails |
| Migrations.RevertNewStructure | surveys/migrations/0011_new_survey_structure.py:109-111 | `pass`: every table and counter is as before |
| Migrations.AddSuggestionQuestion | surveys/migrations/0012_add_suggestion_question.py:12-23 | computes `AddSuggestionRows`; the option counter, responses and answers are unchanged |

## Left out

- HTTP handling, the message framework, redirects and templates are not modelled. The view's result is the `Outcome` datatype: invalid with the form's errors, saved, or save failed. The text of the error message is not kept.
- In the view, exceptions other than a failed `bulk_create` are not modelled; the `except Exception` path covers only that one. Two other database errors are modelled as a false result that changes nothing: the `ProtectedError` of deleting a question that has answers (`DeleteQuestions`), and the `IntegrityError` of a `create` on an existing (question, value) pair (`CreateOption`), after which migration 0011 rolls back.
- Widgets (`Textarea`, `RadioSelect`), placeholders, field labels of the respondent fields and the `is_radio` flag of each question/field pair are presentation and are not modelled.
- Column widths (`max_length`) and the range of `PositiveSmallIntegerField` are not enforced. Ids and orders are unbounded naturals.
- The `created_at` and `updated_at` timestamps are not modelled, except the response's creation time. The clock is a parameter of the view.
- The email validator and `strftime` are function parameters.
- Django's `Meta.ordering` is not modelled. The export's queryset, ordered by `-created_at` by default, is a parameter, and so is the default `get_queryset`.
- The options the view prefetches with each question are a parameter. `IsOptionSnapshot` states what a faithful snapshot is, and `ResolveAgainstTable` uses it.
- `tablib.Dataset` and the fallback import inside `export` are not modelled. The export returns its headers and rows.
- The other three resources in `surveys/resources.py`, the admin, the URL configuration and the tests are not part of this model.
- Each migration's seed data is a parameter rather than a constant. The properties hold for every list of seeds and mapping of options (a Python dict has no repeated keys, which is `DistinctGroups`).
- Migration 0005 is used only for the shape and constraints of the option table. The schema migrations are not modelled.
- Migration transactions are modelled only for 0011: a failed `create` restores the catalog as it was before the migration, through `RestoreCatalog`. The database does not roll back its auto-increment counters, just as a database sequence is not rolled back.
- The view runs without a transaction, so a failed `bulk_create` leaves the new response stored. `SaveSubmission` states this, and it is the source's behaviour.
- Strings are sequences of code points. `str.isspace` is modelled as the Unicode whitespace set that Python documents. Case folding and normalisation are not relevant here and are not modelled.
