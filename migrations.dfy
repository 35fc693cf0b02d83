/**
 * The data migrations that seed and reshape the question catalog (0002, 0006-0012). Each is a
 * pass of ORM operations over the question and option tables, parametrised here by the data it
 * carries (a list of question seeds, a dict from question id to its option choices):
 *
 *  - question upsert by id (0002, 0007, 0009, 0011, 0012) and delete by id;
 *  - option upsert by (question, value) with order = 1-based position (0006, 0008);
 *  - per question: delete the options whose value is not listed, then upsert (0010);
 *  - per question: delete all options, then create the listed ones (0011);
 *  - upsert one question and delete its options (0012).
 *
 * The effect of each pass is a function of the tables it starts from (`UpsertQuestionsRows`,
 * `SeedOptionsRows`, `RefreshOptionsRows`, `ReplaceOptionsRows`); the lemmas give each a closed
 * form key by key and derive idempotence and the apply/revert properties from it, and the
 * methods run the passes against a `Database` and are proved to compute those functions.
 */
module Migrations {
  import opened Wrappers
  import opened Models
  import opened Store

  /** One `(value, label)` pair of an option list. */
  datatype Choice = Choice(value: string, labelText: string)

  /** One entry `question_id: [(value, label), ...]` of an option mapping. */
  datatype OptionGroup = OptionGroup(questionId: nat, choices: seq<Choice>)

  /** One option `update_or_create`: the key it looks up and the label and order it writes. */
  datatype OptionWrite = OptionWrite(key: OptionKey, labelText: string, order: nat)

  // ===========================================================================
  // Question upserts

  /** `[q["id"] for q in seeds]`, as a set. */
  function SeedIds(seeds: seq<QuestionSeed>): (ids: set<nat>)
    ensures forall i :: 0 <= i < |seeds| ==> seeds[i].id in ids
    ensures forall id :: id in ids ==> exists i :: 0 <= i < |seeds| && seeds[i].id == id
  {
    if |seeds| == 0 then {}
    else
      var front := seeds[..|seeds| - 1];
      assert forall i :: 0 <= i < |front| ==> front[i] == seeds[i];
      SeedIds(front) + {seeds[|seeds| - 1].id}
  }

  /** The last seed in the list that carries `id`: the one whose fields end up in the row. */
  function LastSeedFor(seeds: seq<QuestionSeed>, id: nat): (r: Option<QuestionSeed>)
    ensures r.Some? ==> r.value.id == id
    ensures r.None? <==> id !in SeedIds(seeds)
  {
    if |seeds| == 0 then None
    else if seeds[|seeds| - 1].id == id then Some(seeds[|seeds| - 1])
    else LastSeedFor(seeds[..|seeds| - 1], id)
  }

  /** The question table after `for data in seeds: Question.objects.update_or_create(id=data["id"], defaults=data)`. */
  function UpsertQuestionsRows(qs: map<nat, Question>, seeds: seq<QuestionSeed>): map<nat, Question>
  {
    if |seeds| == 0 then qs
    else UpsertQuestionRow(UpsertQuestionsRows(qs, seeds[..|seeds| - 1]), seeds[|seeds| - 1])
  }

  /**
   * The same table stated directly: every listed id holds the fields of its last seed (with
   * `is_active` kept, or true for a new row), and every other row is as it was.
   */
  function SeededTable(qs: map<nat, Question>, seeds: seq<QuestionSeed>): map<nat, Question>
  {
    map id | id in qs.Keys + SeedIds(seeds) ::
      match LastSeedFor(seeds, id)
      case Some(s) => SeededQuestion(Lookup(qs, id), s)
      case None => qs[id]
  }

  predicate ActiveOrNew(e: Option<Question>) {
    e.None? || e.value.isActive
  }

  /** The seeded row depends on the existing row only through its `is_active` flag. */
  lemma SeededQuestionActivity(e1: Option<Question>, e2: Option<Question>, s: QuestionSeed)
    requires ActiveOrNew(e1) == ActiveOrNew(e2)
    ensures SeededQuestion(e1, s) == SeededQuestion(e2, s)
  {
  }

  /** The upsert loop computes the closed form. */
  lemma {:induction false} UpsertQuestionsClosedForm(qs: map<nat, Question>, seeds: seq<QuestionSeed>)
    ensures UpsertQuestionsRows(qs, seeds) == SeededTable(qs, seeds)
  {
    if |seeds| > 0 {
      var front, s := seeds[..|seeds| - 1], seeds[|seeds| - 1];
      UpsertQuestionsClosedForm(qs, front);
      var r, c := UpsertQuestionRow(SeededTable(qs, front), s), SeededTable(qs, seeds);
      assert SeedIds(seeds) == SeedIds(front) + {s.id};
      assert r.Keys == c.Keys;
      forall id | id in c ensures r[id] == c[id] {
        SeededTableSnoc(qs, seeds, id);
      }
    }
  }

  /** One more upsert turns the closed form of the earlier seeds into that of all of them, row by row. */
  lemma SeededTableSnoc(qs: map<nat, Question>, seeds: seq<QuestionSeed>, id: nat)
    requires |seeds| > 0 && id in SeededTable(qs, seeds)
    ensures var r := UpsertQuestionRow(SeededTable(qs, seeds[..|seeds| - 1]), seeds[|seeds| - 1]);
      id in r && r[id] == SeededTable(qs, seeds)[id]
  {
    var m, s := SeededTable(qs, seeds[..|seeds| - 1]), seeds[|seeds| - 1];
    if id == s.id {
      assert ActiveOrNew(Lookup(m, id)) == ActiveOrNew(Lookup(qs, id));
      SeededQuestionActivity(Lookup(m, id), Lookup(qs, id), s);
    }
  }

  /** Every listed id ends up with its last seed's fields, whether or not the row existed. */
  lemma UpsertQuestionsListed(qs: map<nat, Question>, seeds: seq<QuestionSeed>, i: nat)
    requires i < |seeds|
    requires forall j :: i < j < |seeds| ==> seeds[j].id != seeds[i].id
    ensures var r := UpsertQuestionsRows(qs, seeds); var s := seeds[i];
      && s.id in r
      && r[s.id] == Question(s.id, s.category, s.prompt, s.targetAudience, s.note, ActiveOrNew(Lookup(qs, s.id)))
  {
    UpsertQuestionsClosedForm(qs, seeds);
    LastSeedIs(seeds, i);
  }

  lemma {:induction false} LastSeedIs(seeds: seq<QuestionSeed>, i: nat)
    requires i < |seeds|
    requires forall j :: i < j < |seeds| ==> seeds[j].id != seeds[i].id
    ensures LastSeedFor(seeds, seeds[i].id) == Some(seeds[i])
  {
    if i < |seeds| - 1 {
      var front := seeds[..|seeds| - 1];
      assert front[i] == seeds[i];
      forall j | i < j < |front| ensures front[j].id != front[i].id {
        assert front[j] == seeds[j];
      }
      LastSeedIs(front, i);
    }
  }

  /** Rows whose ids are not listed are untouched, and no row disappears. */
  lemma UpsertQuestionsUnlisted(qs: map<nat, Question>, seeds: seq<QuestionSeed>, id: nat)
    ensures var r := UpsertQuestionsRows(qs, seeds);
      && qs.Keys <= r.Keys
      && r.Keys == qs.Keys + SeedIds(seeds)
      && (id in qs && id !in SeedIds(seeds) ==> r[id] == qs[id])
  {
    UpsertQuestionsClosedForm(qs, seeds);
  }

  /** Running the seed twice leaves the table the first run left. */
  lemma UpsertQuestionsIdempotent(qs: map<nat, Question>, seeds: seq<QuestionSeed>)
    ensures UpsertQuestionsRows(UpsertQuestionsRows(qs, seeds), seeds) == UpsertQuestionsRows(qs, seeds)
  {
    var m := UpsertQuestionsRows(qs, seeds);
    UpsertQuestionsClosedForm(qs, seeds);
    UpsertQuestionsClosedForm(m, seeds);
    var r := SeededTable(m, seeds);
    assert r.Keys == m.Keys;
    forall id | id in r ensures r[id] == m[id] {
      match LastSeedFor(seeds, id)
      case Some(s) =>
        assert ActiveOrNew(Lookup(m, id)) == ActiveOrNew(Lookup(qs, id));
        SeededQuestionActivity(Lookup(m, id), Lookup(qs, id), s);
      case None =>
    }
  }

  /**
   * Migration 0009: when the revert list covers every id the apply list writes, applying and
   * then reverting gives what reverting alone gives; in particular a table that already holds
   * the original copy gets it back.
   */
  lemma ApplyThenRevert(qs: map<nat, Question>, apply: seq<QuestionSeed>, revert: seq<QuestionSeed>)
    requires SeedIds(apply) <= SeedIds(revert)
    ensures UpsertQuestionsRows(UpsertQuestionsRows(qs, apply), revert) == UpsertQuestionsRows(qs, revert)
    ensures UpsertQuestionsRows(qs, revert) == qs ==>
      UpsertQuestionsRows(UpsertQuestionsRows(qs, apply), revert) == qs
  {
    var m := UpsertQuestionsRows(qs, apply);
    UpsertQuestionsClosedForm(qs, apply);
    UpsertQuestionsClosedForm(m, revert);
    UpsertQuestionsClosedForm(qs, revert);
    var r, c := SeededTable(m, revert), SeededTable(qs, revert);
    assert r.Keys == c.Keys;
    forall id | id in r ensures r[id] == c[id] {
      match LastSeedFor(revert, id)
      case Some(s) =>
        assert ActiveOrNew(Lookup(m, id)) == ActiveOrNew(Lookup(qs, id));
        SeededQuestionActivity(Lookup(m, id), Lookup(qs, id), s);
      case None =>
    }
  }

  /** The upsert keeps the table keyed by id. */
  lemma UpsertQuestionsKeyed(qs: map<nat, Question>, seeds: seq<QuestionSeed>)
    requires QuestionsKeyed(qs)
    ensures QuestionsKeyed(UpsertQuestionsRows(qs, seeds))
  {
    UpsertQuestionsClosedForm(qs, seeds);
  }

  // ===========================================================================
  // Option writes: the common core of the option passes

  /** The option table after the `update_or_create` calls `ws`, in order. */
  function ApplyWrites(t: OptionTable, ws: seq<OptionWrite>): OptionTable
    decreases |ws|
  {
    if |ws| == 0 then t
    else
      var w := ws[|ws| - 1];
      UpsertOptionRow(ApplyWrites(t, ws[..|ws| - 1]), w.key.questionId, w.key.value, w.labelText, w.order)
  }

  /** The last write to key `k`: the one whose label and order the row ends up with. */
  function LastWrite(ws: seq<OptionWrite>, k: OptionKey): (r: Option<OptionWrite>)
    ensures r.Some? ==> r.value.key == k
    ensures r.None? <==> forall i :: 0 <= i < |ws| ==> ws[i].key != k
  {
    if |ws| == 0 then None
    else if ws[|ws| - 1].key == k then Some(ws[|ws| - 1])
    else
      var front := ws[..|ws| - 1];
      assert forall i :: 0 <= i < |front| ==> front[i] == ws[i];
      LastWrite(front, k)
  }

  lemma {:induction false} LastWriteIs(ws: seq<OptionWrite>, k: OptionKey, j: nat)
    requires j < |ws| && ws[j].key == k
    requires forall i :: j < i < |ws| ==> ws[i].key != k
    ensures LastWrite(ws, k) == Some(ws[j])
  {
    if j < |ws| - 1 {
      var front := ws[..|ws| - 1];
      assert front[j] == ws[j];
      forall i | j < i < |front| ensures front[i].key != k {
        assert front[i] == ws[i];
      }
      LastWriteIs(front, k, j);
    }
  }

  /** A later batch of writes overrides an earlier one key by key. */
  lemma {:induction false} LastWriteAppend(a: seq<OptionWrite>, b: seq<OptionWrite>, k: OptionKey)
    ensures LastWrite(a + b, k) == if LastWrite(b, k).Some? then LastWrite(b, k) else LastWrite(a, k)
    decreases |b|
  {
    if |b| > 0 {
      assert (a + b)[..|a + b| - 1] == a + b[..|b| - 1];
      LastWriteAppend(a, b[..|b| - 1], k);
    } else {
      assert a + b == a;
    }
  }

  /** Row `k` was left alone: present exactly when it was, and unchanged. */
  ghost predicate Kept(t: OptionTable, r: OptionTable, k: OptionKey) {
    && (k in r.rows <==> k in t.rows)
    && (k in t.rows ==> r.rows[k] == t.rows[k])
  }

  /**
   * Row `k` carries label and order `c`: the row of `t` updated in place (same id) if there was
   * one, a new row with a fresh id otherwise.
   */
  ghost predicate RowSet(t: OptionTable, r: OptionTable, k: OptionKey, c: (string, nat)) {
    && k in r.rows
    && (k in t.rows ==> r.rows[k] == t.rows[k].(labelText := c.0, order := c.1))
    && (k !in t.rows ==>
          r.rows[k] == QuestionOption(r.rows[k].id, k.questionId, k.value, c.0, c.1) && t.nextId <= r.rows[k].id)
  }

  /** What a batch of writes leaves under key `k`, given the last write to `k`. */
  ghost predicate WrittenAt(t: OptionTable, r: OptionTable, k: OptionKey, last: Option<OptionWrite>) {
    match last
    case None => Kept(t, r, k)
    case Some(w) => RowSet(t, r, k, (w.labelText, w.order))
  }

  /** The closed form of a batch of upserts, key by key. */
  lemma {:induction false} ApplyWritesAt(t: OptionTable, ws: seq<OptionWrite>, k: OptionKey)
    ensures WrittenAt(t, ApplyWrites(t, ws), k, LastWrite(ws, k))
    decreases |ws|, 1
  {
    if |ws| > 0 {
      var front, w := ws[..|ws| - 1], ws[|ws| - 1];
      ApplyWritesAt(t, front, k);
      ApplyWritesNextId(t, front);
    }
  }

  /** Upserts never lower the id counter, and leave it alone when every key they touch exists. */
  lemma {:induction false} ApplyWritesNextId(t: OptionTable, ws: seq<OptionWrite>)
    ensures t.nextId <= ApplyWrites(t, ws).nextId
    ensures (forall i :: 0 <= i < |ws| ==> ws[i].key in t.rows) ==> ApplyWrites(t, ws).nextId == t.nextId
    decreases |ws|, 0
  {
    if |ws| > 0 {
      var front, w := ws[..|ws| - 1], ws[|ws| - 1];
      ApplyWritesNextId(t, front);
      ApplyWritesAt(t, front, w.key);
      assert forall i :: 0 <= i < |front| ==> front[i] == ws[i];
    }
  }

  /** Running the same batch of upserts twice gives what running it once gives, ids included. */
  lemma ApplyWritesIdempotent(t: OptionTable, ws: seq<OptionWrite>)
    ensures ApplyWrites(ApplyWrites(t, ws), ws) == ApplyWrites(t, ws)
  {
    var r1 := ApplyWrites(t, ws);
    var r2 := ApplyWrites(r1, ws);
    forall i | 0 <= i < |ws| ensures ws[i].key in r1.rows {
      ApplyWritesAt(t, ws, ws[i].key);
    }
    ApplyWritesNextId(r1, ws);
    forall k | k in r1.rows || k in r2.rows
      ensures k in r1.rows && k in r2.rows && r2.rows[k] == r1.rows[k]
    {
      ApplyWritesAt(t, ws, k);
      ApplyWritesAt(r1, ws, k);
    }
    assert r2.rows == r1.rows;
  }

  /** Running two batches is running their concatenation. */
  lemma {:induction false} ApplyWritesAppend(t: OptionTable, a: seq<OptionWrite>, b: seq<OptionWrite>)
    ensures ApplyWrites(t, a + b) == ApplyWrites(ApplyWrites(t, a), b)
    decreases |b|
  {
    if |b| > 0 {
      assert (a + b)[..|a + b| - 1] == a + b[..|b| - 1];
      ApplyWritesAppend(t, a, b[..|b| - 1]);
    } else {
      assert a + b == a;
    }
  }

  // ===========================================================================
  // One question's option list

  /** The values of a choice list, as a set. */
  function Values(cs: seq<Choice>): (vs: set<string>)
    ensures forall i :: 0 <= i < |cs| ==> cs[i].value in vs
    ensures forall v :: v in vs ==> exists i :: 0 <= i < |cs| && cs[i].value == v
  {
    if |cs| == 0 then {}
    else
      var front := cs[..|cs| - 1];
      assert forall i :: 0 <= i < |front| ==> front[i] == cs[i];
      Values(front) + {cs[|cs| - 1].value}
  }

  /** The position of the last choice carrying value `v`. */
  function LastIndex(cs: seq<Choice>, v: string): (j: nat)
    requires v in Values(cs)
    ensures j < |cs| && cs[j].value == v
    ensures forall i :: j < i < |cs| ==> cs[i].value != v
  {
    if cs[|cs| - 1].value == v then |cs| - 1
    else
      var front := cs[..|cs| - 1];
      assert Values(cs) == Values(front) + {cs[|cs| - 1].value};
      LastIndex(front, v)
  }

  /**
   * What a question's options hold once its choice list has been written: for each listed
   * value, its label and its 1-based position (the last occurrence winning if a value repeats).
   */
  function ChoiceContent(cs: seq<Choice>): (c: map<string, (string, nat)>)
    ensures c.Keys == Values(cs)
  {
    map v | v in Values(cs) :: (cs[LastIndex(cs, v)].labelText, LastIndex(cs, v) + 1)
  }

  /** The `(label, order)` of every option of question `qid`, by value. */
  function OptionContent(rows: map<OptionKey, QuestionOption>, qid: nat): map<string, (string, nat)> {
    map k | k in rows && k.questionId == qid :: k.value := (rows[k].labelText, rows[k].order)
  }

  /** `for order, (value, label) in enumerate(cs, start=1)`, as the writes it makes for question `qid`. */
  function ChoiceWrites(qid: nat, cs: seq<Choice>): (ws: seq<OptionWrite>)
    ensures |ws| == |cs|
    ensures forall i :: 0 <= i < |cs| ==> ws[i] == OptionWrite(OptionKey(qid, cs[i].value), cs[i].labelText, i + 1)
  {
    seq(|cs|, i requires 0 <= i < |cs| => OptionWrite(OptionKey(qid, cs[i].value), cs[i].labelText, i + 1))
  }

  /** The last write a choice list makes to a key is its last occurrence's label with its position. */
  lemma ChoiceWritesLast(qid: nat, cs: seq<Choice>, k: OptionKey)
    ensures k.questionId == qid && k.value in Values(cs) ==>
      LastWrite(ChoiceWrites(qid, cs), k) == Some(OptionWrite(k, ChoiceContent(cs)[k.value].0, ChoiceContent(cs)[k.value].1))
    ensures !(k.questionId == qid && k.value in Values(cs)) ==> LastWrite(ChoiceWrites(qid, cs), k) == None
  {
    if k.questionId == qid && k.value in Values(cs) {
      ChoiceWritesListed(qid, cs, k);
    } else {
      ChoiceWritesUnlisted(qid, cs, k);
    }
  }

  lemma ChoiceWritesListed(qid: nat, cs: seq<Choice>, k: OptionKey)
    requires k.questionId == qid && k.value in Values(cs)
    ensures var j := LastIndex(cs, k.value);
      LastWrite(ChoiceWrites(qid, cs), k) == Some(OptionWrite(k, cs[j].labelText, j + 1))
  {
    var ws, j := ChoiceWrites(qid, cs), LastIndex(cs, k.value);
    assert ws[j] == OptionWrite(k, cs[j].labelText, j + 1);
    forall i | j < i < |ws| ensures ws[i].key != k {
      assert ws[i].key == OptionKey(qid, cs[i].value);
    }
    LastWriteIs(ws, k, j);
  }

  lemma ChoiceWritesUnlisted(qid: nat, cs: seq<Choice>, k: OptionKey)
    requires !(k.questionId == qid && k.value in Values(cs))
    ensures LastWrite(ChoiceWrites(qid, cs), k) == None
  {
    var ws := ChoiceWrites(qid, cs);
    forall i | 0 <= i < |ws| ensures ws[i].key != k {
      assert ws[i].key == OptionKey(qid, cs[i].value);
    }
  }

  /** What writing a choice list leaves under key `k`, the question's other options having been pruned. */
  ghost predicate ListWrittenAt(p: OptionTable, r: OptionTable, qid: nat, cs: seq<Choice>, k: OptionKey) {
    if k.questionId != qid then Kept(p, r, k)
    else if k.value in Values(cs) then RowSet(p, r, k, ChoiceContent(cs)[k.value])
    else k !in r.rows
  }

  /** No option of question `qid` has a value outside `vs`. */
  predicate OnlyValues(rows: map<OptionKey, QuestionOption>, qid: nat, vs: set<string>) {
    forall k :: k in rows && k.questionId == qid ==> k.value in vs
  }

  /**
   * Writing a question's whole choice list over a table where that question has no option
   * outside the list: its options become exactly the listed values with their labels and
   * positions; nothing of other questions changes.
   */
  lemma GroupWriteAt(p: OptionTable, qid: nat, cs: seq<Choice>, k: OptionKey)
    requires OnlyValues(p.rows, qid, Values(cs))
    ensures ListWrittenAt(p, ApplyWrites(p, ChoiceWrites(qid, cs)), qid, cs, k)
  {
    ApplyWritesAt(p, ChoiceWrites(qid, cs), k);
    ChoiceWritesLast(qid, cs, k);
  }

  /** When every option of `qid` is as a choice list prescribes, its content is that list's. */
  lemma ContentOfList(r: OptionTable, qid: nat, cs: seq<Choice>)
    requires forall k: OptionKey :: k.questionId == qid ==>
      (k in r.rows <==> k.value in Values(cs)) &&
      (k in r.rows ==> (r.rows[k].labelText, r.rows[k].order) == ChoiceContent(cs)[k.value])
    ensures OptionContent(r.rows, qid) == ChoiceContent(cs)
  {
    var oc, cc := OptionContent(r.rows, qid), ChoiceContent(cs);
    forall v | v in cc ensures v in oc && oc[v] == cc[v] {
      var k := OptionKey(qid, v);
      assert k in r.rows;
    }
    forall v | v in oc ensures v in cc {
      var k :| k in r.rows && k.questionId == qid && k.value == v;
    }
  }

  /** Options left alone keep their content. */
  lemma ContentKept(t: OptionTable, r: OptionTable, qid: nat)
    requires forall k: OptionKey :: k.questionId == qid ==> Kept(t, r, k)
    ensures OptionContent(r.rows, qid) == OptionContent(t.rows, qid)
  {
    var a, b := OptionContent(r.rows, qid), OptionContent(t.rows, qid);
    forall v | v in a ensures v in b && a[v] == b[v] {
      var k :| k in r.rows && k.questionId == qid && k.value == v;
      assert OptionKey(qid, v) == k;
    }
    forall v | v in b ensures v in a {
      var k :| k in t.rows && k.questionId == qid && k.value == v;
      assert Kept(t, r, k);
    }
  }

  // ===========================================================================
  // Option mappings

  /** A Python dict has one entry per key. */
  predicate DistinctGroups(gs: seq<OptionGroup>) {
    forall i, j :: 0 <= i < j < |gs| ==> gs[i].questionId != gs[j].questionId
  }

  /** `list(mapping.keys())`, as a set. */
  function GroupIds(gs: seq<OptionGroup>): (ids: set<nat>)
    ensures forall i :: 0 <= i < |gs| ==> gs[i].questionId in ids
    ensures forall id :: id in ids ==> exists i :: 0 <= i < |gs| && gs[i].questionId == id
  {
    if |gs| == 0 then {}
    else
      var front := gs[..|gs| - 1];
      assert forall i :: 0 <= i < |front| ==> front[i] == gs[i];
      GroupIds(front) + {gs[|gs| - 1].questionId}
  }

  /** The entry a pass acts on for question `qid`: the mapping's entry, provided the question exists (a missing one is skipped). */
  function Listed(qs: map<nat, Question>, gs: seq<OptionGroup>, qid: nat): (r: Option<OptionGroup>)
    ensures r.Some? ==> r.value.questionId == qid && qid in qs && r.value in gs
    ensures r.None? ==> qid !in qs || qid !in GroupIds(gs)
  {
    if |gs| == 0 || qid !in qs then None
    else if gs[|gs| - 1].questionId == qid then Some(gs[|gs| - 1])
    else
      var front := gs[..|gs| - 1];
      assert forall i :: 0 <= i < |front| ==> front[i] == gs[i];
      Listed(qs, front, qid)
  }

  /** The entry at position `i` is the one listed for its question. */
  lemma {:induction false} ListedIs(qs: map<nat, Question>, gs: seq<OptionGroup>, i: nat)
    requires DistinctGroups(gs) && i < |gs| && gs[i].questionId in qs
    ensures Listed(qs, gs, gs[i].questionId) == Some(gs[i])
  {
    if i < |gs| - 1 {
      var front := gs[..|gs| - 1];
      assert front[i] == gs[i];
      ListedIs(qs, front, i);
    }
  }

  /** A dropped last entry is the only one for its question. */
  lemma FrontNotListed(qs: map<nat, Question>, gs: seq<OptionGroup>)
    requires DistinctGroups(gs) && |gs| > 0
    ensures DistinctGroups(gs[..|gs| - 1])
    ensures Listed(qs, gs[..|gs| - 1], gs[|gs| - 1].questionId) == None
  {
  }

  // ===========================================================================
  // Migrations 0006 and 0008: upsert every listed option, prune nothing

  /** The option table after `seed_question_options` / `seed_options` with the mapping `gs`. */
  function SeedOptionsRows(qs: map<nat, Question>, t: OptionTable, gs: seq<OptionGroup>): OptionTable
  {
    if |gs| == 0 then t
    else
      var m := SeedOptionsRows(qs, t, gs[..|gs| - 1]);
      var g := gs[|gs| - 1];
      if g.questionId in qs then ApplyWrites(m, ChoiceWrites(g.questionId, g.choices)) else m
  }

  /** The upserts the seed pass makes, in order; entries for missing questions make none. */
  function SeedWrites(qs: map<nat, Question>, gs: seq<OptionGroup>): seq<OptionWrite>
  {
    if |gs| == 0 then []
    else
      var g := gs[|gs| - 1];
      SeedWrites(qs, gs[..|gs| - 1]) + (if g.questionId in qs then ChoiceWrites(g.questionId, g.choices) else [])
  }

  lemma {:induction false} SeedOptionsAsWrites(qs: map<nat, Question>, t: OptionTable, gs: seq<OptionGroup>)
    ensures SeedOptionsRows(qs, t, gs) == ApplyWrites(t, SeedWrites(qs, gs))
  {
    if |gs| > 0 {
      var front, g := gs[..|gs| - 1], gs[|gs| - 1];
      SeedOptionsAsWrites(qs, t, front);
      var tail := if g.questionId in qs then ChoiceWrites(g.questionId, g.choices) else [];
      ApplyWritesAppend(t, SeedWrites(qs, front), tail);
    }
  }

  lemma {:induction false} SeedWritesLast(qs: map<nat, Question>, gs: seq<OptionGroup>, k: OptionKey)
    requires DistinctGroups(gs)
    ensures LastWrite(SeedWrites(qs, gs), k) ==
      match Listed(qs, gs, k.questionId)
      case None => None
      case Some(g) => LastWrite(ChoiceWrites(g.questionId, g.choices), k)
  {
    if |gs| > 0 {
      var front, g := gs[..|gs| - 1], gs[|gs| - 1];
      FrontNotListed(qs, gs);
      SeedWritesLast(qs, front, k);
      var tail := if g.questionId in qs then ChoiceWrites(g.questionId, g.choices) else [];
      LastWriteAppend(SeedWrites(qs, front), tail, k);
      ChoiceWritesLast(g.questionId, g.choices, k);
    }
  }

  /**
   * The seed pass, key by key. A listed option of an existing question carries the listed label
   * and its 1-based position, updated in place if it existed; every other option is untouched,
   * so nothing is pruned, and entries for missing questions do nothing.
   */
  lemma SeedOptionsAt(qs: map<nat, Question>, t: OptionTable, gs: seq<OptionGroup>, k: OptionKey)
    requires DistinctGroups(gs)
    ensures var r := SeedOptionsRows(qs, t, gs);
      match Listed(qs, gs, k.questionId)
      case Some(g) =>
        if k.value in Values(g.choices) then RowSet(t, r, k, ChoiceContent(g.choices)[k.value]) else Kept(t, r, k)
      case None => Kept(t, r, k)
    ensures k in t.rows ==> k in SeedOptionsRows(qs, t, gs).rows
  {
    SeedOptionsAsWrites(qs, t, gs);
    SeedWritesLast(qs, gs, k);
    ApplyWritesAt(t, SeedWrites(qs, gs), k);
    match Listed(qs, gs, k.questionId)
    case Some(g) => ChoiceWritesLast(g.questionId, g.choices, k);
    case None =>
  }

  /** Seeding twice leaves the table the first seed left, ids included. */
  lemma SeedOptionsIdempotent(qs: map<nat, Question>, t: OptionTable, gs: seq<OptionGroup>)
    ensures SeedOptionsRows(qs, SeedOptionsRows(qs, t, gs), gs) == SeedOptionsRows(qs, t, gs)
  {
    SeedOptionsAsWrites(qs, t, gs);
    SeedOptionsAsWrites(qs, SeedOptionsRows(qs, t, gs), gs);
    ApplyWritesIdempotent(t, SeedWrites(qs, gs));
  }

  // ===========================================================================
  // Migration 0010: per question, delete unlisted values, then upsert the list

  /** One entry of `update_options`: drop the question's options whose value is not listed, then upsert the list. */
  function RefreshGroup(t: OptionTable, g: OptionGroup): OptionTable {
    ApplyWrites(
      OptionTable(WithoutOptionsExcept(t.rows, g.questionId, Values(g.choices)), t.nextId),
      ChoiceWrites(g.questionId, g.choices))
  }

  /** The option table after `update_options(mapping)`. */
  function RefreshOptionsRows(qs: map<nat, Question>, t: OptionTable, gs: seq<OptionGroup>): OptionTable
  {
    if |gs| == 0 then t
    else
      var m := RefreshOptionsRows(qs, t, gs[..|gs| - 1]);
      var g := gs[|gs| - 1];
      if g.questionId in qs then RefreshGroup(m, g) else m
  }

  /** What a refresh leaves under key `k`, given the entry listed for its question. */
  ghost predicate RefreshedAt(t: OptionTable, r: OptionTable, k: OptionKey, listed: Option<OptionGroup>) {
    match listed
    case None => Kept(t, r, k)
    case Some(g) =>
      if k.value in Values(g.choices) then RowSet(t, r, k, ChoiceContent(g.choices)[k.value]) else k !in r.rows
  }

  /**
   * `update_options`, key by key: an option of a listed existing question survives exactly when
   * its value is listed, then carrying the listed label and position and keeping its row and id;
   * listed values that were missing get fresh rows; options of other questions are untouched.
   */
  lemma {:induction false} RefreshOptionsAt(qs: map<nat, Question>, t: OptionTable, gs: seq<OptionGroup>, k: OptionKey)
    requires DistinctGroups(gs)
    ensures RefreshedAt(t, RefreshOptionsRows(qs, t, gs), k, Listed(qs, gs, k.questionId))
    ensures t.nextId <= RefreshOptionsRows(qs, t, gs).nextId
  {
    if |gs| > 0 {
      var front, g := gs[..|gs| - 1], gs[|gs| - 1];
      FrontNotListed(qs, gs);
      RefreshOptionsAt(qs, t, front, k);
      if g.questionId in qs {
        var m := RefreshOptionsRows(qs, t, front);
        var p := OptionTable(WithoutOptionsExcept(m.rows, g.questionId, Values(g.choices)), m.nextId);
        GroupWriteAt(p, g.questionId, g.choices, k);
        ApplyWritesNextId(p, ChoiceWrites(g.questionId, g.choices));
      }
    }
  }

  /** Every listed value of every existing listed question has a row. */
  predicate Covers(qs: map<nat, Question>, t: OptionTable, gs: seq<OptionGroup>) {
    forall i, j :: 0 <= i < |gs| && gs[i].questionId in qs && 0 <= j < |gs[i].choices| ==>
      OptionKey(gs[i].questionId, gs[i].choices[j].value) in t.rows
  }

  lemma RefreshCovers(qs: map<nat, Question>, t: OptionTable, gs: seq<OptionGroup>)
    requires DistinctGroups(gs)
    ensures Covers(qs, RefreshOptionsRows(qs, t, gs), gs)
  {
    forall i, j | 0 <= i < |gs| && gs[i].questionId in qs && 0 <= j < |gs[i].choices|
      ensures OptionKey(gs[i].questionId, gs[i].choices[j].value) in RefreshOptionsRows(qs, t, gs).rows
    {
      ListedIs(qs, gs, i);
      RefreshOptionsAt(qs, t, gs, OptionKey(gs[i].questionId, gs[i].choices[j].value));
    }
  }

  /** A refresh over a table that already has every listed row creates none, so the id counter stays. */
  lemma {:induction false} RefreshNextId(qs: map<nat, Question>, t: OptionTable, gs: seq<OptionGroup>)
    requires DistinctGroups(gs) && Covers(qs, t, gs)
    ensures RefreshOptionsRows(qs, t, gs).nextId == t.nextId
  {
    if |gs| > 0 {
      var front, g := gs[..|gs| - 1], gs[|gs| - 1];
      FrontNotListed(qs, gs);
      assert forall i :: 0 <= i < |front| ==> front[i] == gs[i];
      RefreshNextId(qs, t, front);
      if g.questionId in qs {
        var m := RefreshOptionsRows(qs, t, front);
        var p := OptionTable(WithoutOptionsExcept(m.rows, g.questionId, Values(g.choices)), m.nextId);
        var ws := ChoiceWrites(g.questionId, g.choices);
        forall j | 0 <= j < |ws| ensures ws[j].key in p.rows {
          var k := ws[j].key;
          assert k == OptionKey(gs[|gs| - 1].questionId, gs[|gs| - 1].choices[j].value);
          RefreshOptionsAt(qs, t, front, k);
        }
        ApplyWritesNextId(p, ws);
      }
    }
  }

  /** Running `update_options` twice leaves the table the first run left, ids included. */
  lemma RefreshOptionsIdempotent(qs: map<nat, Question>, t: OptionTable, gs: seq<OptionGroup>)
    requires DistinctGroups(gs)
    ensures RefreshOptionsRows(qs, RefreshOptionsRows(qs, t, gs), gs) == RefreshOptionsRows(qs, t, gs)
  {
    var r1 := RefreshOptionsRows(qs, t, gs);
    var r2 := RefreshOptionsRows(qs, r1, gs);
    RefreshCovers(qs, t, gs);
    RefreshNextId(qs, r1, gs);
    forall k | k in r1.rows || k in r2.rows
      ensures k in r1.rows && k in r2.rows && r2.rows[k] == r1.rows[k]
    {
      RefreshOptionsAt(qs, t, gs, k);
      RefreshOptionsAt(qs, r1, gs, k);
    }
    assert r2.rows == r1.rows;
  }

  /** After `update_options`, each existing listed question's options are exactly its list: values, labels, 1-based order. */
  lemma RefreshOptionsContent(qs: map<nat, Question>, t: OptionTable, gs: seq<OptionGroup>, i: nat)
    requires DistinctGroups(gs) && i < |gs| && gs[i].questionId in qs
    ensures OptionContent(RefreshOptionsRows(qs, t, gs).rows, gs[i].questionId) == ChoiceContent(gs[i].choices)
  {
    ListedIs(qs, gs, i);
    var r := RefreshOptionsRows(qs, t, gs);
    forall k: OptionKey | k.questionId == gs[i].questionId
      ensures (k in r.rows <==> k.value in Values(gs[i].choices))
      ensures k in r.rows ==> (r.rows[k].labelText, r.rows[k].order) == ChoiceContent(gs[i].choices)[k.value]
    {
      RefreshOptionsAt(qs, t, gs, k);
    }
    ContentOfList(r, gs[i].questionId, gs[i].choices);
  }

  /**
   * Migration 0010 applied with one mapping and reverted with another: every existing
   * question of the revert mapping ends with exactly its old options, and the options of a
   * question in neither mapping are untouched.
   */
  lemma RefreshThenRevert(qs: map<nat, Question>, t: OptionTable, applied: seq<OptionGroup>, original: seq<OptionGroup>, qid: nat)
    requires DistinctGroups(applied) && DistinctGroups(original)
    ensures var r := RefreshOptionsRows(qs, RefreshOptionsRows(qs, t, applied), original);
      && (Listed(qs, original, qid).Some? ==> OptionContent(r.rows, qid) == ChoiceContent(Listed(qs, original, qid).value.choices))
      && (Listed(qs, original, qid).None? && Listed(qs, applied, qid).None? ==>
            forall k: OptionKey :: k.questionId == qid ==> Kept(t, r, k))
  {
    var m := RefreshOptionsRows(qs, t, applied);
    var r := RefreshOptionsRows(qs, m, original);
    if Listed(qs, original, qid).Some? {
      var g := Listed(qs, original, qid).value;
      var i :| 0 <= i < |original| && original[i] == g;
      RefreshOptionsContent(qs, m, original, i);
    } else if Listed(qs, applied, qid).None? {
      forall k: OptionKey | k.questionId == qid ensures Kept(t, r, k) {
        RefreshOptionsAt(qs, t, applied, k);
        RefreshOptionsAt(qs, m, original, k);
      }
    }
  }

  // ===========================================================================
  // Migration 0011: per question, delete every option, then create the list

  /** The option table after the `create` calls `ws`, or `None` at the first IntegrityError. */
  function CreateWrites(t: OptionTable, ws: seq<OptionWrite>): Option<OptionTable>
    decreases |ws|
  {
    if |ws| == 0 then Some(t)
    else
      var w := ws[|ws| - 1];
      match CreateWrites(t, ws[..|ws| - 1])
      case None => None
      case Some(m) => CreateOptionRow(m, w.key.questionId, w.key.value, w.labelText, w.order)
  }

  /** The keys of a batch are pairwise distinct and none is in the table yet. */
  predicate FreshKeys(t: OptionTable, ws: seq<OptionWrite>) {
    && (forall i, j :: 0 <= i < j < |ws| ==> ws[i].key != ws[j].key)
    && (forall i :: 0 <= i < |ws| ==> ws[i].key !in t.rows)
  }

  /** A batch of creates succeeds exactly when its keys are fresh, and then it is the batch of upserts. */
  lemma {:induction false} CreateWritesOk(t: OptionTable, ws: seq<OptionWrite>)
    ensures CreateWrites(t, ws).Some? <==> FreshKeys(t, ws)
    ensures CreateWrites(t, ws).Some? ==> CreateWrites(t, ws).value == ApplyWrites(t, ws)
    decreases |ws|
  {
    if |ws| > 0 {
      var front, w := ws[..|ws| - 1], ws[|ws| - 1];
      CreateWritesOk(t, front);
      FreshKeysSnoc(t, ws);
      if CreateWrites(t, front).Some? {
        var m := ApplyWrites(t, front);
        ApplyWritesAt(t, front, w.key);
        assert w.key in m.rows <==> w.key in t.rows || LastWrite(front, w.key).Some?;
      }
    }
  }

  lemma FreshKeysSnoc(t: OptionTable, ws: seq<OptionWrite>)
    requires |ws| > 0
    ensures var front, w := ws[..|ws| - 1], ws[|ws| - 1];
      FreshKeys(t, ws) <==>
        FreshKeys(t, front) && w.key !in t.rows && forall i :: 0 <= i < |front| ==> front[i].key != w.key
  {
    var front := ws[..|ws| - 1];
    assert forall i :: 0 <= i < |front| ==> front[i] == ws[i];
  }

  /** No value occurs twice in a choice list. */
  predicate DistinctValues(cs: seq<Choice>) {
    forall i, j :: 0 <= i < j < |cs| ==> cs[i].value != cs[j].value
  }

  /** One entry of `apply_new_structure`: delete the question's options, then create the listed ones. */
  function ReplaceGroup(t: OptionTable, g: OptionGroup): Option<OptionTable> {
    CreateWrites(OptionTable(WithoutOptionsOf(t.rows, {g.questionId}), t.nextId), ChoiceWrites(g.questionId, g.choices))
  }

  /** Re-creating a question's options fails exactly when its list repeats a value. */
  lemma ReplaceGroupOk(t: OptionTable, g: OptionGroup)
    ensures ReplaceGroup(t, g).Some? <==> DistinctValues(g.choices)
    ensures ReplaceGroup(t, g).Some? ==>
      ReplaceGroup(t, g).value ==
        ApplyWrites(OptionTable(WithoutOptionsOf(t.rows, {g.questionId}), t.nextId), ChoiceWrites(g.questionId, g.choices))
  {
    var p := OptionTable(WithoutOptionsOf(t.rows, {g.questionId}), t.nextId);
    var ws := ChoiceWrites(g.questionId, g.choices);
    CreateWritesOk(p, ws);
    assert FreshKeys(p, ws) <==> DistinctValues(g.choices) by {
      assert forall i, j :: 0 <= i < |ws| && 0 <= j < |ws| ==>
        (ws[i].key == ws[j].key <==> g.choices[i].value == g.choices[j].value);
    }
  }

  /** The option table after the options loop of `apply_new_structure`, or `None` if a `create` raised. */
  function ReplaceOptionsRows(qs: map<nat, Question>, t: OptionTable, gs: seq<OptionGroup>): Option<OptionTable>
  {
    if |gs| == 0 then Some(t)
    else
      var g := gs[|gs| - 1];
      match ReplaceOptionsRows(qs, t, gs[..|gs| - 1])
      case None => None
      case Some(m) => if g.questionId in qs then ReplaceGroup(m, g) else Some(m)
  }

  /** Every existing listed question's list is free of repeated values. */
  predicate ReplaceSucceeds(qs: map<nat, Question>, gs: seq<OptionGroup>) {
    forall i :: 0 <= i < |gs| && gs[i].questionId in qs ==> DistinctValues(gs[i].choices)
  }

  /** The run succeeds exactly when the earlier entries succeed and the last one does. */
  lemma ReplaceSucceedsSnoc(qs: map<nat, Question>, gs: seq<OptionGroup>)
    requires |gs| > 0
    ensures ReplaceSucceeds(qs, gs) <==>
      ReplaceSucceeds(qs, gs[..|gs| - 1]) && (gs[|gs| - 1].questionId in qs ==> DistinctValues(gs[|gs| - 1].choices))
  {
    assert forall i :: 0 <= i < |gs| - 1 ==> gs[..|gs| - 1][i] == gs[i];
  }

  /** Row `k` is a newly created row carrying label and order `c`: its id is fresh. */
  ghost predicate RowCreated(t: OptionTable, r: OptionTable, k: OptionKey, c: (string, nat)) {
    && k in r.rows
    && r.rows[k] == QuestionOption(r.rows[k].id, k.questionId, k.value, c.0, c.1)
    && t.nextId <= r.rows[k].id
  }

  /** What the re-creation leaves under key `k`, given the entry listed for its question. */
  ghost predicate ReplacedAt(t: OptionTable, r: OptionTable, k: OptionKey, listed: Option<OptionGroup>) {
    match listed
    case None => Kept(t, r, k)
    case Some(g) =>
      if k.value in Values(g.choices) then RowCreated(t, r, k, ChoiceContent(g.choices)[k.value]) else k !in r.rows
  }

  /**
   * The options loop of `apply_new_structure`, key by key: it fails exactly when some existing
   * listed question's list repeats a value; otherwise an option of a listed existing question
   * exists exactly when its value is listed, as a new row with a fresh id; the options of other
   * questions are untouched.
   */
  lemma {:induction false} ReplaceOptionsAt(qs: map<nat, Question>, t: OptionTable, gs: seq<OptionGroup>, k: OptionKey)
    requires DistinctGroups(gs)
    ensures ReplaceOptionsRows(qs, t, gs).Some? <==> ReplaceSucceeds(qs, gs)
    ensures ReplaceOptionsRows(qs, t, gs).Some? ==>
      && ReplacedAt(t, ReplaceOptionsRows(qs, t, gs).value, k, Listed(qs, gs, k.questionId))
      && t.nextId <= ReplaceOptionsRows(qs, t, gs).value.nextId
  {
    if |gs| > 0 {
      var front, g := gs[..|gs| - 1], gs[|gs| - 1];
      FrontNotListed(qs, gs);
      ReplaceOptionsAt(qs, t, front, k);
      ReplaceSucceedsSnoc(qs, gs);
      if ReplaceOptionsRows(qs, t, front).Some? && g.questionId in qs {
        var m := ReplaceOptionsRows(qs, t, front).value;
        var p := OptionTable(WithoutOptionsOf(m.rows, {g.questionId}), m.nextId);
        ReplaceGroupOk(m, g);
        GroupWriteAt(p, g.questionId, g.choices, k);
        ApplyWritesNextId(p, ChoiceWrites(g.questionId, g.choices));
      }
    }
  }

  /** After a successful run, each existing listed question's options are exactly its list. */
  lemma ReplaceOptionsContent(qs: map<nat, Question>, t: OptionTable, gs: seq<OptionGroup>, i: nat)
    requires DistinctGroups(gs) && ReplaceSucceeds(qs, gs) && i < |gs| && gs[i].questionId in qs
    ensures ReplaceOptionsRows(qs, t, gs).Some?
    ensures OptionContent(ReplaceOptionsRows(qs, t, gs).value.rows, gs[i].questionId) == ChoiceContent(gs[i].choices)
  {
    ListedIs(qs, gs, i);
    ReplaceOptionsAt(qs, t, gs, OptionKey(0, ""));
    var r := ReplaceOptionsRows(qs, t, gs).value;
    forall k: OptionKey | k.questionId == gs[i].questionId
      ensures (k in r.rows <==> k.value in Values(gs[i].choices))
      ensures k in r.rows ==> (r.rows[k].labelText, r.rows[k].order) == ChoiceContent(gs[i].choices)[k.value]
    {
      ReplaceOptionsAt(qs, t, gs, k);
    }
    ContentOfList(r, gs[i].questionId, gs[i].choices);
  }

  /** Re-running the re-creation succeeds again and yields the same (value, label, order) content for every question. */
  lemma ReplaceOptionsRerun(qs: map<nat, Question>, t: OptionTable, gs: seq<OptionGroup>, qid: nat)
    requires DistinctGroups(gs) && ReplaceSucceeds(qs, gs)
    ensures ReplaceOptionsRows(qs, t, gs).Some?
    ensures var r1 := ReplaceOptionsRows(qs, t, gs).value;
      && ReplaceOptionsRows(qs, r1, gs).Some?
      && OptionContent(ReplaceOptionsRows(qs, r1, gs).value.rows, qid) == OptionContent(r1.rows, qid)
  {
    ReplaceOptionsAt(qs, t, gs, OptionKey(0, ""));
    var r1 := ReplaceOptionsRows(qs, t, gs).value;
    ReplaceOptionsAt(qs, r1, gs, OptionKey(0, ""));
    var r2 := ReplaceOptionsRows(qs, r1, gs).value;
    match Listed(qs, gs, qid)
    case Some(g) =>
      var i :| 0 <= i < |gs| && gs[i] == g;
      ReplaceOptionsContent(qs, t, gs, i);
      ReplaceOptionsContent(qs, r1, gs, i);
    case None =>
      forall k: OptionKey | k.questionId == qid ensures Kept(r1, r2, k) {
        ReplaceOptionsAt(qs, r1, gs, k);
      }
      ContentKept(r1, r2, qid);
  }

  // ===========================================================================
  // Migration 0012: upsert one question and clear its options

  /** The catalog after `add_suggestion_question` with seed `s`. */
  function AddSuggestionRows(qs: map<nat, Question>, rows: map<OptionKey, QuestionOption>, s: QuestionSeed)
    : (map<nat, Question>, map<OptionKey, QuestionOption>)
  {
    (UpsertQuestionRow(qs, s), WithoutOptionsOf(rows, {s.id}))
  }

  /**
   * After `add_suggestion_question`, the question holds the seed's fields and has no options;
   * every other question and option is as before; running it again changes nothing.
   */
  lemma AddSuggestionEffect(qs: map<nat, Question>, rows: map<OptionKey, QuestionOption>, s: QuestionSeed)
    ensures var (q2, r2) := AddSuggestionRows(qs, rows, s);
      && s.id in q2
      && q2[s.id] == Question(s.id, s.category, s.prompt, s.targetAudience, s.note, ActiveOrNew(Lookup(qs, s.id)))
      && OptionContent(r2, s.id) == map[]
      && (forall id :: id in qs && id != s.id ==> id in q2 && q2[id] == qs[id])
      && (forall k :: k in rows && k.questionId != s.id ==> k in r2 && r2[k] == rows[k])
      && AddSuggestionRows(q2, r2, s) == (q2, r2)
  {
    var (q2, r2) := AddSuggestionRows(qs, rows, s);
    assert OptionContent(r2, s.id).Keys == {};
    UpsertQuestionsIdempotent(qs, [s]);
    assert [s][..0] == [];
    assert WithoutOptionsOf(r2, {s.id}) == r2;
  }

  // ===========================================================================
  // The migrations, run against the database

  /**
   * `for data in seeds: Question.objects.update_or_create(id=data["id"], defaults=data)`: the body
   * of `seed_questions` (0002), `add_questions` (0007), `apply_question_copy` and
   * `revert_question_copy` (0009), and the first loop of `apply_new_structure` (0011).
   */
  method UpsertQuestions(db: Database, seeds: seq<QuestionSeed>)
    requires db.Valid()
    modifies db
    ensures db.Valid()
    ensures db.questions == UpsertQuestionsRows(old(db.questions), seeds)
    ensures db.OptionTableOf() == old(db.OptionTableOf())
    ensures db.responses == old(db.responses) && db.nextResponseId == old(db.nextResponseId) && db.answers == old(db.answers)
  {
    var i := 0;
    while i < |seeds|
      invariant 0 <= i <= |seeds|
      invariant db.Valid()
      invariant db.questions == UpsertQuestionsRows(old(db.questions), seeds[..i])
      invariant db.OptionTableOf() == old(db.OptionTableOf())
      invariant db.responses == old(db.responses) && db.nextResponseId == old(db.nextResponseId)
      invariant db.answers == old(db.answers)
    {
      db.UpsertQuestion(seeds[i]);
      assert seeds[..i + 1][..i] == seeds[..i];
      i := i + 1;
    }
    assert seeds[..|seeds|] == seeds;
  }

  /**
   * `Question.objects.filter(id__in=[q["id"] for q in seeds]).delete()`: `unseed_questions`
   * (0002), `remove_questions` (0007) and, with the one seed, `remove_suggestion_question`
   * (0012). The options of the deleted questions go with them; an answer to any of them makes
   * the delete raise, the migration's transaction rolls back and nothing changes.
   */
  method DeleteListedQuestions(db: Database, seeds: seq<QuestionSeed>) returns (deleted: bool)
    requires db.Valid()
    modifies db
    ensures db.Valid()
    ensures deleted <==> !AnswersMention(old(db.answers), SeedIds(seeds))
    ensures deleted ==>
      db.questions == old(db.questions) - SeedIds(seeds) && db.options == WithoutOptionsOf(old(db.options), SeedIds(seeds))
    ensures !deleted ==> db.questions == old(db.questions) && db.options == old(db.options)
    ensures db.nextOptionId == old(db.nextOptionId)
    ensures db.responses == old(db.responses) && db.nextResponseId == old(db.nextResponseId) && db.answers == old(db.answers)
  {
    deleted := db.DeleteQuestions(SeedIds(seeds));
  }

  lemma ChoiceWritesPrefix(qid: nat, cs: seq<Choice>, n: nat)
    requires n <= |cs|
    ensures ChoiceWrites(qid, cs[..n]) == ChoiceWrites(qid, cs)[..n]
  {
  }

  /** One more choice is one more upsert, with that choice's position as its order. */
  lemma ApplyChoicesStep(t: OptionTable, qid: nat, cs: seq<Choice>, j: nat)
    requires j < |cs|
    ensures ApplyWrites(t, ChoiceWrites(qid, cs[..j + 1])) ==
      UpsertOptionRow(ApplyWrites(t, ChoiceWrites(qid, cs[..j])), qid, cs[j].value, cs[j].labelText, j + 1)
  {
    ChoiceWritesPrefix(qid, cs, j);
    ChoiceWritesPrefix(qid, cs, j + 1);
    assert ChoiceWrites(qid, cs[..j + 1])[..j] == ChoiceWrites(qid, cs[..j]);
  }

  /**
   * `for order, (value, label) in enumerate(cs, start=1): QuestionOption.objects.update_or_create(
   * question=question, value=value, defaults={"label": label, "order": order})`.
   */
  method UpsertChoices(db: Database, qid: nat, cs: seq<Choice>)
    requires db.Valid() && qid in db.questions
    modifies db
    ensures db.Valid()
    ensures db.OptionTableOf() == ApplyWrites(old(db.OptionTableOf()), ChoiceWrites(qid, cs))
    ensures db.questions == old(db.questions)
    ensures db.responses == old(db.responses) && db.nextResponseId == old(db.nextResponseId) && db.answers == old(db.answers)
  {
    var j := 0;
    while j < |cs|
      invariant 0 <= j <= |cs|
      invariant db.Valid()
      invariant db.OptionTableOf() == ApplyWrites(old(db.OptionTableOf()), ChoiceWrites(qid, cs[..j]))
      invariant db.questions == old(db.questions)
      invariant db.responses == old(db.responses) && db.nextResponseId == old(db.nextResponseId)
      invariant db.answers == old(db.answers)
    {
      db.UpsertOption(qid, cs[j].value, cs[j].labelText, j + 1);
      ApplyChoicesStep(old(db.OptionTableOf()), qid, cs, j);
      j := j + 1;
    }
    assert cs[..|cs|] == cs;
  }

  /**
   * `seed_question_options` (0006) and `seed_options` (0008): for each entry whose question
   * exists, upsert its options; entries for missing questions are skipped.
   */
  method SeedOptions(db: Database, gs: seq<OptionGroup>)
    requires db.Valid()
    modifies db
    ensures db.Valid()
    ensures db.OptionTableOf() == SeedOptionsRows(old(db.questions), old(db.OptionTableOf()), gs)
    ensures db.questions == old(db.questions)
    ensures db.responses == old(db.responses) && db.nextResponseId == old(db.nextResponseId) && db.answers == old(db.answers)
  {
    var i := 0;
    while i < |gs|
      invariant 0 <= i <= |gs|
      invariant db.Valid()
      invariant db.OptionTableOf() == SeedOptionsRows(old(db.questions), old(db.OptionTableOf()), gs[..i])
      invariant db.questions == old(db.questions)
      invariant db.responses == old(db.responses) && db.nextResponseId == old(db.nextResponseId)
      invariant db.answers == old(db.answers)
    {
      var g := gs[i];
      if g.questionId in db.questions {
        UpsertChoices(db, g.questionId, g.choices);
      }
      assert gs[..i + 1][..i] == gs[..i];
      i := i + 1;
    }
    assert gs[..|gs|] == gs;
  }

  /**
   * `QuestionOption.objects.filter(question_id__in=list(mapping.keys())).delete()`:
   * `unseed_question_options` (0006) and `unseed_options` (0008).
   */
  method UnseedOptions(db: Database, gs: seq<OptionGroup>)
    requires db.Valid()
    modifies db
    ensures db.Valid()
    ensures db.options == WithoutOptionsOf(old(db.options), GroupIds(gs)) && db.nextOptionId == old(db.nextOptionId)
    ensures db.questions == old(db.questions)
    ensures db.responses == old(db.responses) && db.nextResponseId == old(db.nextResponseId) && db.answers == old(db.answers)
  {
    db.DeleteOptionsOf(GroupIds(gs));
  }

  /**
   * `update_options(mapping)` (0010), run by `apply_new_options` with the new mapping and by
   * `revert_new_options` with the old one: per existing question, delete its options with an
   * unlisted value, then upsert the list.
   */
  method UpdateOptions(db: Database, gs: seq<OptionGroup>)
    requires db.Valid()
    modifies db
    ensures db.Valid()
    ensures db.OptionTableOf() == RefreshOptionsRows(old(db.questions), old(db.OptionTableOf()), gs)
    ensures db.questions == old(db.questions)
    ensures db.responses == old(db.responses) && db.nextResponseId == old(db.nextResponseId) && db.answers == old(db.answers)
  {
    var i := 0;
    while i < |gs|
      invariant 0 <= i <= |gs|
      invariant db.Valid()
      invariant db.OptionTableOf() == RefreshOptionsRows(old(db.questions), old(db.OptionTableOf()), gs[..i])
      invariant db.questions == old(db.questions)
      invariant db.responses == old(db.responses) && db.nextResponseId == old(db.nextResponseId)
      invariant db.answers == old(db.answers)
    {
      var g := gs[i];
      if g.questionId in db.questions {
        db.DeleteOptionsExcept(g.questionId, Values(g.choices));
        UpsertChoices(db, g.questionId, g.choices);
      }
      assert gs[..i + 1][..i] == gs[..i];
      i := i + 1;
    }
    assert gs[..|gs|] == gs;
  }

  /** A batch of creates that has failed stays failed whatever follows. */
  lemma {:induction false} CreateWritesPrefixNone(t: OptionTable, ws: seq<OptionWrite>, n: nat)
    requires n <= |ws| && CreateWrites(t, ws[..n]).None?
    ensures CreateWrites(t, ws).None?
    decreases |ws| - n
  {
    if n < |ws| {
      assert ws[..n + 1][..n] == ws[..n];
      CreateWritesPrefixNone(t, ws, n + 1);
    } else {
      assert ws[..n] == ws;
    }
  }

  /**
   * `for order, (value, label) in enumerate(cs, start=1): QuestionOption.objects.create(...)`;
   * `ok` is false when a create raised an IntegrityError, which ends the loop.
   */
  method CreateChoices(db: Database, qid: nat, cs: seq<Choice>) returns (ok: bool)
    requires db.Valid() && qid in db.questions
    modifies db
    ensures db.Valid()
    ensures ok <==> CreateWrites(old(db.OptionTableOf()), ChoiceWrites(qid, cs)).Some?
    ensures ok ==> db.OptionTableOf() == CreateWrites(old(db.OptionTableOf()), ChoiceWrites(qid, cs)).value
    ensures old(db.nextOptionId) <= db.nextOptionId
    ensures db.questions == old(db.questions)
    ensures db.responses == old(db.responses) && db.nextResponseId == old(db.nextResponseId) && db.answers == old(db.answers)
  {
    ghost var t0 := db.OptionTableOf();
    ghost var ws := ChoiceWrites(qid, cs);
    ok := true;
    var j := 0;
    while ok && j < |cs|
      invariant 0 <= j <= |cs|
      invariant db.Valid()
      invariant CreateWrites(t0, ws[..j]) == if ok then Some(db.OptionTableOf()) else None
      invariant t0.nextId <= db.nextOptionId
      invariant db.questions == old(db.questions)
      invariant db.responses == old(db.responses) && db.nextResponseId == old(db.nextResponseId)
      invariant db.answers == old(db.answers)
    {
      ok := db.CreateOption(qid, cs[j].value, cs[j].labelText, j + 1);
      assert ws[..j + 1][..j] == ws[..j];
      j := j + 1;
    }
    if ok {
      assert ws[..j] == ws;
    } else {
      CreateWritesPrefixNone(t0, ws, j);
    }
  }

  /**
   * `apply_new_structure` (0011): upsert the questions, then for each entry whose question exists
   * delete all its options and create the listed ones. A create that raises aborts the migration,
   * whose transaction rolls the catalog back; `ok` tells which happened.
   */
  method ApplyNewStructure(db: Database, seeds: seq<QuestionSeed>, gs: seq<OptionGroup>) returns (ok: bool)
    requires db.Valid()
    modifies db
    ensures db.Valid()
    ensures ok <==> ReplaceOptionsRows(UpsertQuestionsRows(old(db.questions), seeds), old(db.OptionTableOf()), gs).Some?
    ensures ok ==>
      && db.questions == UpsertQuestionsRows(old(db.questions), seeds)
      && db.OptionTableOf() == ReplaceOptionsRows(db.questions, old(db.OptionTableOf()), gs).value
    ensures !ok ==> db.questions == old(db.questions) && db.options == old(db.options)
    ensures db.responses == old(db.responses) && db.nextResponseId == old(db.nextResponseId) && db.answers == old(db.answers)
  {
    var savedQuestions, savedOptions := db.questions, db.options;
    ghost var t0 := db.OptionTableOf();
    assert QuestionsKeyed(savedQuestions) && OptionTableValid(t0, savedQuestions);
    assert AnswersReference(db.answers, db.responses, savedQuestions);
    UpsertQuestions(db, seeds);
    ghost var q1 := db.questions;
    ok := true;
    var i := 0;
    while ok && i < |gs|
      invariant 0 <= i <= |gs|
      invariant db.Valid()
      invariant ReplaceOptionsRows(q1, t0, gs[..i]) == if ok then Some(db.OptionTableOf()) else None
      invariant t0.nextId <= db.nextOptionId
      invariant db.questions == q1
      invariant db.responses == old(db.responses) && db.nextResponseId == old(db.nextResponseId)
      invariant db.answers == old(db.answers)
    {
      var g := gs[i];
      if g.questionId in db.questions {
        db.DeleteOptionsOf({g.questionId});
        ok := CreateChoices(db, g.questionId, g.choices);
      }
      assert gs[..i + 1][..i] == gs[..i];
      i := i + 1;
    }
    if ok {
      assert gs[..i] == gs;
    } else {
      ReplacePrefixNone(q1, t0, gs, i);
      db.RestoreCatalog(savedQuestions, savedOptions);
    }
  }

  lemma {:induction false} ReplacePrefixNone(qs: map<nat, Question>, t: OptionTable, gs: seq<OptionGroup>, n: nat)
    requires n <= |gs| && ReplaceOptionsRows(qs, t, gs[..n]).None?
    ensures ReplaceOptionsRows(qs, t, gs).None?
    decreases |gs| - n
  {
    if n < |gs| {
      assert gs[..n + 1][..n] == gs[..n];
      ReplacePrefixNone(qs, t, gs, n + 1);
    } else {
      assert gs[..n] == gs;
    }
  }

  /** `revert_new_structure` (0011) is `pass`: it changes nothing, which the empty frame states. */
  method RevertNewStructure(db: Database)
    requires db.Valid()
    ensures db.Valid()
    ensures db.questions == old(db.questions) && db.OptionTableOf() == old(db.OptionTableOf())
    ensures db.responses == old(db.responses) && db.nextResponseId == old(db.nextResponseId) && db.answers == old(db.answers)
  {
  }

  /** `add_suggestion_question` (0012): upsert the question, then delete all its options. */
  method AddSuggestionQuestion(db: Database, s: QuestionSeed)
    requires db.Valid()
    modifies db
    ensures db.Valid()
    ensures (db.questions, db.options) == AddSuggestionRows(old(db.questions), old(db.options), s)
    ensures db.nextOptionId == old(db.nextOptionId)
    ensures db.responses == old(db.responses) && db.nextResponseId == old(db.nextResponseId) && db.answers == old(db.answers)
  {
    db.UpsertQuestion(s);
    db.DeleteOptionsOf({s.id});
  }
}
