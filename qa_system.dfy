/** The `QuestionAnswerSystem` of qa_system.py: a question tree and a
    knowledge base kept side by side, the two synchronisation passes
    between them and the suggestion of the next question to answer. */
module QaSystem {
  import opened Wrappers
  import opened Sequences
  import opened Text
  import opened QaTreeTable
  import opened QaTreeNodes
  import opened QaTree
  import opened QaKbRecords
  import opened QaKb

  // ---------------------------------------------------------------------
  // The link between the two stores
  // ---------------------------------------------------------------------

  /** A document from the tree names its tree id, as an integer. */
  predicate TreeIdTagged(m: Metadata) {
    Matches(m, FromTreeFilter()) ==> "tree_id" in m && m["tree_id"].MInt?
  }

  /** Every document from the tree in the KB names its tree id: the
      system only tags documents through `add_tree_question`. */
  ghost predicate TreeDocsTagged(docs: seq<Document>) {
    forall k :: 0 <= k < |docs| ==> TreeIdTagged(docs[k].metadata)
  }

  /** The document `add_tree_question` appends keeps every document from
      the tree tagged. */
  lemma AddTreeKeepsTagged(docs: seq<Document>, question: string, treeId: int, answer: Option<string>)
    requires TreeDocsTagged(docs)
    ensures TreeDocsTagged(docs + [Document(DocId(|docs|, 0), Single(question),
                                            StoredMetadata(Some(TreeTag(treeId)), OptionalAnswer(answer)))])
  {
    var m := StoredMetadata(Some(TreeTag(treeId)), OptionalAnswer(answer));
    assert "tree_id" in m && m["tree_id"] == MInt(treeId);
  }

  /** The metadata `update_answer` writes: the nearest document's, with
      the new answer. */
  lemma NewAnswerKeeps(m: Metadata, newAnswer: AnswerValue)
    ensures TextAnswer(m["answer" := MStr(Str(newAnswer))])
    ensures TreeIdTagged(m) ==> TreeIdTagged(m["answer" := MStr(Str(newAnswer))])
  {
    var m' := m["answer" := MStr(Str(newAnswer))];
    if TreeIdTagged(m) && Matches(m', FromTreeFilter()) {
      assert "from_tree" in FromTreeFilter();
      assert "from_tree" in m && m["from_tree"] == MBool(true);
    }
  }

  /** Rewriting one document with metadata that carries a text answer and
      its tree id keeps both invariants. */
  lemma UpdateDocKeeps(docs: seq<Document>, id: string, text: QuestionInput, m: Metadata)
    requires AnswersStored(docs) && TextAnswer(m)
    ensures AnswersStored(UpdateDoc(docs, id, text, m))
    ensures TreeDocsTagged(docs) && TreeIdTagged(m) ==> TreeDocsTagged(UpdateDoc(docs, id, text, m))
  {
    var updated := UpdateDoc(docs, id, text, m);
    assert forall i :: 0 <= i < |docs| ==> updated[i] == docs[i] || updated[i].metadata == m;
  }

  /** `update_answer` on a KB whose documents all carry a text answer
      fails exactly when the KB is empty, keeps that so, and keeps every
      document from the tree tagged. */
  lemma AnswerUpdateKeeps(docs: seq<Document>, distance: (QuestionInput, QuestionInput) -> int,
                          question: QuestionInput, newAnswer: AnswerValue)
    requires AnswersStored(docs)
    ensures AnswerUpdate(docs, distance, question, newAnswer).Ok? <==> docs != []
    ensures AnswerUpdate(docs, distance, question, newAnswer).Ok? ==>
      var updated := AnswerUpdate(docs, distance, question, newAnswer).value;
      && AnswersStored(updated)
      && (TreeDocsTagged(docs) ==> TreeDocsTagged(updated))
  {
    NearestOne(docs, distance, question, None);
    var nearest := StoreQuery(docs, distance, question, 1, None);
    if |nearest| > 0 {
      var j := StoreHitFrom(docs, distance, question, 1, None, 0);
      NewAnswerKeeps(nearest[0].metadata, newAnswer);
      assert TreeDocsTagged(docs) ==> TreeIdTagged(docs[j].metadata);
      UpdateDocKeeps(docs, nearest[0].id, question, nearest[0].metadata["answer" := MStr(Str(newAnswer))]);
    }
  }

  /** The query of `update_tree_question` finds nothing in an empty KB. */
  lemma EmptyTreeLookup(distance: (QuestionInput, QuestionInput) -> int, treeId: int)
    ensures QueryResult([], distance, Single(""), 1, Some(TreeIdFilter(treeId)), 0, "") == Ok([])
  {
    var w := TreeIdFilter(treeId);
    assert "tree_id" in w;
    QueryOneHit([], distance, Single(""), w);
    assert |Candidates([], Some(w))| == 0;
    assert StoreQuery([], distance, Single(""), 1, Some(w)) == [];
  }

  /** `update_tree_question` never fails on a KB whose documents all carry
      a text answer, and keeps that so, as well as the tree-id tags. */
  lemma TreeQuestionUpdateKeeps(docs: seq<Document>, distance: (QuestionInput, QuestionInput) -> int,
                                treeId: int, answer: string)
    requires AnswersStored(docs)
    ensures TreeQuestionUpdate(docs, distance, treeId, answer).Ok?
    ensures var updated := TreeQuestionUpdate(docs, distance, treeId, answer).value;
      && AnswersStored(updated)
      && (TreeDocsTagged(docs) ==> TreeDocsTagged(updated))
  {
    QueryAnswered(docs, distance, Single(""), 1, Some(TreeIdFilter(treeId)), 0, "");
    var results := QueryResult(docs, distance, Single(""), 1, Some(TreeIdFilter(treeId)), 0, "").value;
    if |results| > 0 {
      if docs == [] {
        EmptyTreeLookup(distance, treeId);
        assert false;
      }
      AnswerUpdateKeeps(docs, distance, results[0].question, AText(answer));
    }
  }

  // ---------------------------------------------------------------------
  // sync_kb_to_tree
  // ---------------------------------------------------------------------

  datatype SyncError =
    | KbFailed(kbError: KbError)  // `get_tree_questions` raised
    | NoTreeId                    // a result without `tree_id`: the KeyError of `q["metadata"]["tree_id"]`
    | BadTreeId                   // a `tree_id` that is not an integer

  /** The table after a pass, and what stopped the pass, if anything. The
      updates made before a failure stay: each one is committed. */
  datatype Synced = Synced(rows: Table, failure: Option<SyncError>)

  /** `q["metadata"]["tree_id"]`. */
  function TreeIdOf(h: Hit): Result<int, SyncError> {
    if "tree_id" !in h.metadata then Err(NoTreeId)
    else match h.metadata["tree_id"]
      case MInt(i) => Ok(i)
      case _ => Err(BadTreeId)
  }

  /** The text the TEXT column `answer` holds once a metadata value is
      written to it: integers and booleans are stored as their digits. */
  function AnswerText(v: MetaValue): string {
    match v
    case MStr(s) => s
    case MInt(i) => IntToDecimal(i)
    case MBool(b) => if b then "1" else "0"
  }

  /** One iteration of `sync_kb_to_tree`: the answer of the result goes to
      its tree node when the node is not answered. The guard `q["answer"]
      is not None` always holds, since a metadata value is never None. */
  function SyncStep(rows: Table, h: Hit): (s: Synced)
    requires WellFormed(rows)
    ensures WellFormed(s.rows)
  {
    match TreeIdOf(h)
    case Err(e) => Synced(rows, Some(e))
    case Ok(id) =>
      if !IsAnswered(rows, id) then
        SetAnswerWellFormed(rows, id, AnswerText(h.answer));
        Synced(SetAnswer(rows, id, AnswerText(h.answer)), None)
      else Synced(rows, None)
  }

  /** The loop of `sync_kb_to_tree` over the results, in order, stopping at
      the first failure. */
  function SyncRows(rows: Table, hits: seq<Hit>): (s: Synced)
    requires WellFormed(rows)
    ensures WellFormed(s.rows)
    decreases |hits|
  {
    if |hits| == 0 then Synced(rows, None)
    else
      var s := SyncRows(rows, hits[..|hits| - 1]);
      if s.failure.Some? then s else SyncStep(s.rows, hits[|hits| - 1])
  }

  /** `sync_kb_to_tree`. */
  function SyncKbToTreeResult(rows: Table, docs: seq<Document>,
                              distance: (QuestionInput, QuestionInput) -> int): (s: Synced)
    requires WellFormed(rows)
    ensures WellFormed(s.rows)
  {
    match TreeQuestions(docs, distance)
    case Err(e) => Synced(rows, Some(KbFailed(e)))
    case Ok(hits) => SyncRows(rows, hits)
  }

  /** What a pass may do to the row with id `k`: leave it as it was, or
      give an unanswered row the answer of a result naming `k`. */
  ghost predicate SyncedRow(before: Option<Row>, after: Option<Row>, hits: seq<Hit>, k: int) {
    || after == before
    || (&& before.Some? && before.value.answer.None?
        && exists j :: (0 <= j < |hits| && TreeIdOf(hits[j]) == Ok(k)
                        && after == Some(before.value.(answer := Some(AnswerText(hits[j].answer))))))
  }

  lemma SyncedRowPrefix(before: Option<Row>, after: Option<Row>, hits: seq<Hit>, m: nat, k: int)
    requires m <= |hits| && SyncedRow(before, after, hits[..m], k)
    ensures SyncedRow(before, after, hits, k)
  {
    if after != before {
      var j :| 0 <= j < m && TreeIdOf(hits[..m][j]) == Ok(k)
               && after == Some(before.value.(answer := Some(AnswerText(hits[..m][j].answer))));
      assert hits[j] == hits[..m][j];
    }
  }

  /** A pass never changes an answered row, and writes an unanswered row
      only with the answer of a result naming it. */
  lemma {:induction false} SyncRowsEffect(rows: Table, hits: seq<Hit>, k: int)
    requires WellFormed(rows)
    ensures SyncedRow(GetQuestion(rows, k), GetQuestion(SyncRows(rows, hits).rows, k), hits, k)
    decreases |hits|
  {
    if |hits| > 0 {
      var front := hits[..|hits| - 1];
      var h := hits[|hits| - 1];
      var s := SyncRows(rows, front);
      SyncRowsEffect(rows, front, k);
      SyncedRowPrefix(GetQuestion(rows, k), GetQuestion(s.rows, k), hits, |hits| - 1, k);
      if s.failure.None? && TreeIdOf(h).Ok? && !IsAnswered(s.rows, TreeIdOf(h).value) {
        var id := TreeIdOf(h).value;
        SetAnswerLookup(s.rows, id, AnswerText(h.answer), k);
        if k == id && GetQuestion(s.rows, k).Some? {
          assert GetQuestion(s.rows, k) == GetQuestion(rows, k);
        }
      }
    }
  }

  /** An answered row is never overwritten: it reads the same after a
      pass, whatever the KB holds. */
  lemma SyncKeepsAnswered(rows: Table, docs: seq<Document>, distance: (QuestionInput, QuestionInput) -> int, k: int)
    requires WellFormed(rows) && IsAnswered(rows, k)
    ensures GetQuestion(SyncKbToTreeResult(rows, docs, distance).rows, k) == GetQuestion(rows, k)
  {
    if TreeQuestions(docs, distance).Ok? {
      SyncRowsEffect(rows, TreeQuestions(docs, distance).value, k);
    }
  }

  /** The row with id `id` needs nothing more: it is answered or absent. */
  predicate Done(rows: Table, id: int) {
    GetQuestion(rows, id).None? || GetQuestion(rows, id).value.answer.Some?
  }

  /** Every result names a tree id whose row needs nothing more. */
  ghost predicate Settled(rows: Table, hits: seq<Hit>) {
    forall j :: 0 <= j < |hits| ==> TreeIdOf(hits[j]).Ok? && Done(rows, TreeIdOf(hits[j]).value)
  }

  /** Writing an answer never undoes `Done`, and makes the written id
      done. */
  lemma SetAnswerDone(rows: Table, id: int, answer: string, k: int)
    ensures Done(rows, k) ==> Done(SetAnswer(rows, id, answer), k)
    ensures Done(SetAnswer(rows, id, answer), id)
  {
    SetAnswerLookup(rows, id, answer, k);
    SetAnswerLookup(rows, id, answer, id);
  }

  /** A pass that ends without failure leaves every result's row done. */
  lemma {:induction false} SyncSettles(rows: Table, hits: seq<Hit>)
    requires WellFormed(rows) && SyncRows(rows, hits).failure.None?
    ensures Settled(SyncRows(rows, hits).rows, hits)
    decreases |hits|
  {
    if |hits| > 0 {
      var front := hits[..|hits| - 1];
      var h := hits[|hits| - 1];
      var s := SyncRows(rows, front);
      SyncSettles(rows, front);
      var id := TreeIdOf(h).value;
      var after := SyncRows(rows, hits).rows;
      forall j | 0 <= j < |hits| ensures TreeIdOf(hits[j]).Ok? && Done(after, TreeIdOf(hits[j]).value) {
        if j < |hits| - 1 {
          assert hits[j] == front[j];
          SetAnswerDone(s.rows, id, AnswerText(h.answer), TreeIdOf(hits[j]).value);
        } else {
          SetAnswerDone(s.rows, id, AnswerText(h.answer), id);
        }
      }
    }
  }

  /** A pass over settled rows changes nothing and does not fail. */
  lemma {:induction false} SettledSyncsNothing(rows: Table, hits: seq<Hit>)
    requires WellFormed(rows) && Settled(rows, hits)
    ensures SyncRows(rows, hits) == Synced(rows, None)
    decreases |hits|
  {
    if |hits| > 0 {
      var front := hits[..|hits| - 1];
      var h := hits[|hits| - 1];
      assert forall j :: 0 <= j < |front| ==> front[j] == hits[j];
      SettledSyncsNothing(rows, front);
      var id := TreeIdOf(h).value;
      if !IsAnswered(rows, id) {
        assert !HasId(rows, id);
        SetAnswerUnknownId(rows, id, AnswerText(h.answer));
      }
    }
  }

  /** A second `sync_kb_to_tree` with nothing changed in between writes
      nothing. */
  lemma SyncIdempotent(rows: Table, docs: seq<Document>, distance: (QuestionInput, QuestionInput) -> int)
    requires WellFormed(rows)
    ensures var s := SyncKbToTreeResult(rows, docs, distance);
      s.failure.None? ==> SyncKbToTreeResult(s.rows, docs, distance) == Synced(s.rows, None)
  {
    if TreeQuestions(docs, distance).Ok? {
      var hits := TreeQuestions(docs, distance).value;
      if SyncRows(rows, hits).failure.None? {
        SyncSettles(rows, hits);
        SettledSyncsNothing(SyncRows(rows, hits).rows, hits);
      }
    }
  }

  /** A pass over results that all name an integer tree id does not fail. */
  lemma {:induction false} SyncRowsNoFailure(rows: Table, hits: seq<Hit>)
    requires WellFormed(rows)
    requires forall j :: 0 <= j < |hits| ==> TreeIdOf(hits[j]).Ok?
    ensures SyncRows(rows, hits).failure.None?
    decreases |hits|
  {
    if |hits| > 0 {
      SyncRowsNoFailure(rows, hits[..|hits| - 1]);
    }
  }

  /** On a KB kept by the system, `sync_kb_to_tree` never fails. */
  lemma SyncNeverFails(rows: Table, docs: seq<Document>, distance: (QuestionInput, QuestionInput) -> int)
    requires WellFormed(rows) && AnswersStored(docs) && TreeDocsTagged(docs)
    ensures SyncKbToTreeResult(rows, docs, distance).failure.None?
  {
    QueryAnswered(docs, distance, Single(""), |docs|, Some(FromTreeFilter()), 0, "");
    var hits := TreeQuestions(docs, distance).value;
    TreeQuestionsFacts(docs, distance);
    forall j | 0 <= j < |hits| ensures TreeIdOf(hits[j]).Ok? {
      HitNamesTreeId(hits[j], docs);
    }
    SyncRowsNoFailure(rows, hits);
  }

  /** A result read from a tagged document names an integer tree id. */
  lemma HitNamesTreeId(h: Hit, docs: seq<Document>)
    requires FromSomeDoc(h, docs) && TreeDocsTagged(docs)
    ensures TreeIdOf(h).Ok?
  {
    var k :| 0 <= k < |docs| && FromDoc(h, docs[k]);
    assert TreeIdTagged(docs[k].metadata);
    assert "tree_id" in h.metadata;
  }

  /** The pass stopped by result `i` ends there. */
  lemma {:induction false} SyncRowsStops(rows: Table, hits: seq<Hit>, i: nat)
    requires WellFormed(rows) && i <= |hits| && SyncRows(rows, hits[..i]).failure.Some?
    ensures SyncRows(rows, hits) == SyncRows(rows, hits[..i])
    decreases |hits| - i
  {
    if i < |hits| {
      assert hits[..i + 1][..i] == hits[..i];
      SyncRowsStops(rows, hits, i + 1);
    } else {
      assert hits[..i] == hits;
    }
  }

  lemma SyncRowsSnoc(rows: Table, hits: seq<Hit>, i: nat)
    requires WellFormed(rows) && i < |hits|
    ensures var s := SyncRows(rows, hits[..i]);
      SyncRows(rows, hits[..i + 1]) == if s.failure.Some? then s else SyncStep(s.rows, hits[i])
  {
    assert hits[..i + 1][..i] == hits[..i];
  }

  // ---------------------------------------------------------------------
  // sync_tree_to_kb
  // ---------------------------------------------------------------------

  /** The KB after a pass, and the error that stopped it, if any. */
  datatype Pushed = Pushed(docs: seq<Document>, failure: Option<KbError>)

  /** The calls `sync_tree_to_kb` makes: one per answered row, in table
      order, with the row's id and answer. */
  function TreeUpdates(rows: Table): seq<(int, string)> {
    var answered := AnsweredRows(rows);
    seq(|answered|, i requires 0 <= i < |answered| => (answered[i].id, answered[i].answer.value))
  }

  /** Exactly the answered rows are pushed, each once, with its answer,
      in increasing id order. */
  lemma TreeUpdatesExactly(rows: Table)
    requires WellFormed(rows)
    ensures var u := TreeUpdates(rows);
      && (forall i :: 0 <= i < |rows| && rows[i].answer.Some? ==>
            (rows[i].id, rows[i].answer.value) in u)
      && (forall j :: 0 <= j < |u| ==>
            exists i :: 0 <= i < |rows| && rows[i].id == u[j].0 && rows[i].answer == Some(u[j].1))
      && (forall i, j :: 0 <= i < j < |u| ==> u[i].0 < u[j].0)
  {
    TreeUpdatesCover(rows);
    TreeUpdatesFromRows(rows);
    TreeUpdatesIncreasing(rows);
  }

  lemma TreeUpdatesCover(rows: Table)
    ensures forall i :: 0 <= i < |rows| && rows[i].answer.Some? ==>
      (rows[i].id, rows[i].answer.value) in TreeUpdates(rows)
  {
    var answered := AnsweredRows(rows);
    var u := TreeUpdates(rows);
    forall i | 0 <= i < |rows| && rows[i].answer.Some? ensures (rows[i].id, rows[i].answer.value) in u {
      assert rows[i] in answered;
      var m :| 0 <= m < |answered| && answered[m] == rows[i];
      assert u[m] == (rows[i].id, rows[i].answer.value);
    }
  }

  lemma TreeUpdatesFromRows(rows: Table)
    ensures var u := TreeUpdates(rows);
      forall j :: 0 <= j < |u| ==>
        exists i :: 0 <= i < |rows| && rows[i].id == u[j].0 && rows[i].answer == Some(u[j].1)
  {
    var answered := AnsweredRows(rows);
    var u := TreeUpdates(rows);
    forall j | 0 <= j < |u|
      ensures exists i :: 0 <= i < |rows| && rows[i].id == u[j].0 && rows[i].answer == Some(u[j].1)
    {
      assert answered[j] in rows;
      var i :| 0 <= i < |rows| && rows[i] == answered[j];
      assert rows[i].id == u[j].0 && rows[i].answer == Some(u[j].1);
    }
  }

  lemma TreeUpdatesIncreasing(rows: Table)
    requires WellFormed(rows)
    ensures var u := TreeUpdates(rows);
      forall i, j :: 0 <= i < j < |u| ==> u[i].0 < u[j].0
  {
    var answered := AnsweredRows(rows);
    FilterWellFormed(rows, (x: Row) => x.answer.Some?);
    var u := TreeUpdates(rows);
    assert forall i :: 0 <= i < |u| ==> u[i].0 == Id(answered[i]);
  }

  /** The loop of `sync_tree_to_kb`: `update_tree_question` for each
      update in turn, stopping at the first error. */
  function PushAnswers(docs: seq<Document>, distance: (QuestionInput, QuestionInput) -> int,
                       updates: seq<(int, string)>): (p: Pushed)
    ensures |p.docs| == |docs|
    decreases |updates|
  {
    if |updates| == 0 then Pushed(docs, None)
    else
      var p := PushAnswers(docs, distance, updates[..|updates| - 1]);
      var u := updates[|updates| - 1];
      if p.failure.Some? then p
      else match TreeQuestionUpdate(p.docs, distance, u.0, u.1)
        case Err(e) => Pushed(p.docs, Some(e))
        case Ok(updated) => Pushed(updated, None)
  }

  /** The pass adds no document, removes none and renames none: every
      update rewrites a document in place. */
  lemma {:induction false} PushKeepsIds(docs: seq<Document>, distance: (QuestionInput, QuestionInput) -> int,
                                        updates: seq<(int, string)>)
    ensures var p := PushAnswers(docs, distance, updates);
      forall i :: 0 <= i < |docs| ==> p.docs[i].id == docs[i].id
    decreases |updates|
  {
    if |updates| > 0 {
      PushKeepsIds(docs, distance, updates[..|updates| - 1]);
    }
  }

  /** On a KB whose documents all carry a text answer, no update fails,
      and the KB stays so and keeps its tree-id tags. */
  lemma {:induction false} PushNeverFails(docs: seq<Document>, distance: (QuestionInput, QuestionInput) -> int,
                                          updates: seq<(int, string)>)
    requires AnswersStored(docs)
    ensures var p := PushAnswers(docs, distance, updates);
      && p.failure.None? && AnswersStored(p.docs)
      && (TreeDocsTagged(docs) ==> TreeDocsTagged(p.docs))
    decreases |updates|
  {
    if |updates| > 0 {
      var front := updates[..|updates| - 1];
      var u := updates[|updates| - 1];
      PushNeverFails(docs, distance, front);
      TreeQuestionUpdateKeeps(PushAnswers(docs, distance, front).docs, distance, u.0, u.1);
    }
  }

  lemma PushStops(docs: seq<Document>, distance: (QuestionInput, QuestionInput) -> int,
                  updates: seq<(int, string)>, i: nat)
    requires i <= |updates| && PushAnswers(docs, distance, updates[..i]).failure.Some?
    ensures PushAnswers(docs, distance, updates) == PushAnswers(docs, distance, updates[..i])
    decreases |updates| - i
  {
    if i < |updates| {
      assert updates[..i + 1][..i] == updates[..i];
      PushStops(docs, distance, updates, i + 1);
    } else {
      assert updates[..i] == updates;
    }
  }

  lemma PushSnoc(docs: seq<Document>, distance: (QuestionInput, QuestionInput) -> int,
                 updates: seq<(int, string)>, i: nat)
    requires i < |updates|
    ensures var p := PushAnswers(docs, distance, updates[..i]);
      PushAnswers(docs, distance, updates[..i + 1])
      == if p.failure.Some? then p
         else match TreeQuestionUpdate(p.docs, distance, updates[i].0, updates[i].1)
           case Err(e) => Pushed(p.docs, Some(e))
           case Ok(updated) => Pushed(updated, None)
  {
    assert updates[..i + 1][..i] == updates[..i];
  }

  // ---------------------------------------------------------------------
  // suggest_next_question
  // ---------------------------------------------------------------------

  /** The dictionary `suggest_next_question` returns. */
  datatype Suggestion = Suggestion(id: nat, question: string, parentId: Option<int>, priority: int)

  /** `not q.answer`: no answer, or the empty one. */
  predicate Unanswered(n: Node) {
    n.row.answer.None? || n.row.answer.value == ""
  }

  function SuggestionOf(n: Node): Suggestion {
    Suggestion(n.row.id, n.row.question, n.row.parentId, n.priority)
  }

  /** The number of nodes `get_high_priority_questions` returns by default. */
  const SuggestLimit := 10

  /** The tree the ranking is taken from: the cached one, or a new one
      when none is cached. */
  function RankedTree(rows: Table, root: Option<Node>): (t: Option<Node>)
    requires WellFormed(rows)
    ensures root.Some? ==> t == root
  {
    if root.None? then BuiltRoot(rows, root) else root
  }

  /** `suggest_next_question` on the table `rows` and the cached tree
      `root`: the first node without a truthy answer among the top
      ranked ones. */
  function Suggest(rows: Table, root: Option<Node>): (r: Result<Option<Suggestion>, TreeError>)
    requires WellFormed(rows)
    ensures r.Ok? && r.value.Some? ==> r.value.value.priority >= 1
  {
    match RankedTree(rows, root)
    case None => Err(NoRoot)
    case Some(t) => RankedPriorities(t, SuggestLimit); Ok(FirstUnanswered(Ranked(Prioritized(t), SuggestLimit)))
  }

  /** The end of `suggest_next_question`: the first of the ranked nodes
      without a truthy answer. */
  function FirstUnanswered(ranked: seq<Node>): Option<Suggestion> {
    var open := Filter(ranked, Unanswered);
    if |open| == 0 then None else Some(SuggestionOf(open[0]))
  }

  /** There is no such node exactly when every ranked node has a truthy
      answer; otherwise it is node `k`, and every node before it has one. */
  lemma FirstUnansweredFacts(ranked: seq<Node>) returns (k: nat)
    ensures FirstUnanswered(ranked).None? <==> forall i :: 0 <= i < |ranked| ==> !Unanswered(ranked[i])
    ensures FirstUnanswered(ranked).Some? ==>
      && k < |ranked| && Unanswered(ranked[k]) && FirstUnanswered(ranked).value == SuggestionOf(ranked[k])
      && forall j :: 0 <= j < k ==> !Unanswered(ranked[j])
  {
    k := 0;
    FilterFirst(ranked, Unanswered);
    var open := Filter(ranked, Unanswered);
    if |open| > 0 {
      k :| 0 <= k < |ranked| && ranked[k] == open[0] && forall j :: 0 <= j < k ==> !Unanswered(ranked[j]);
    }
  }

  /** The tree cached after `suggest_next_question`. */
  function SuggestedRoot(rows: Table, root: Option<Node>): Option<Node>
    requires WellFormed(rows)
  {
    match RankedTree(rows, root)
    case None => None
    case Some(t) => Some(Prioritized(t))
  }

  /** Node `k` of the ranking is the one suggested: it has no truthy
      answer, every node ranked before it has one, and its priority is the
      number of leaves below it. */
  ghost predicate SuggestedAt(ranked: seq<Node>, k: nat, s: Suggestion) {
    && k < |ranked| && Unanswered(ranked[k]) && s == SuggestionOf(ranked[k])
    && ranked[k].priority == LeafCount(ranked[k]) >= 1
    && forall j :: 0 <= j < k ==> !Unanswered(ranked[j])
  }

  /** Without any tree there is nothing to rank. There is no suggestion
      exactly when every top ranked node has a truthy answer; otherwise
      the suggestion is the first top ranked node without one. */
  lemma SuggestFacts(rows: Table, root: Option<Node>) returns (k: nat)
    requires WellFormed(rows)
    ensures Suggest(rows, root).Err? <==> RankedTree(rows, root).None?
    ensures RankedTree(rows, root).Some? ==>
      var ranked := Ranked(Prioritized(RankedTree(rows, root).value), SuggestLimit);
      && (Suggest(rows, root) == Ok(None) <==> forall i :: 0 <= i < |ranked| ==> !Unanswered(ranked[i]))
      && (Suggest(rows, root).Ok? && Suggest(rows, root).value.Some? ==>
            SuggestedAt(ranked, k, Suggest(rows, root).value.value))
  {
    k := 0;
    if RankedTree(rows, root).Some? {
      var t := RankedTree(rows, root).value;
      var ranked := Ranked(Prioritized(t), SuggestLimit);
      assert Suggest(rows, root) == Ok(FirstUnanswered(ranked));
      k := FirstUnansweredFacts(ranked);
      if FirstUnanswered(ranked).Some? {
        RankedPriorities(t, SuggestLimit);
        assert ranked[k] in ranked;
      }
    }
  }

  // ---------------------------------------------------------------------
  // The system
  // ---------------------------------------------------------------------

  class QuestionAnswerSystem {
    const tree: QuestionAnswerTree
    const kb: QuestionAnswerKB

    ghost predicate Valid()
      reads this, tree, kb
    {
      tree.Valid() && kb.Valid() && TreeDocsTagged(kb.docs)
    }

    /** A system over an existing question table and a new KB. */
    constructor (existing: Table, distance: (QuestionInput, QuestionInput) -> int)
      requires WellFormed(existing)
      ensures Valid() && fresh(tree) && fresh(kb)
      ensures tree.rows == existing && tree.root == None && kb.docs == [] && kb.distance == distance
    {
      tree := new QuestionAnswerTree(existing);
      kb := new QuestionAnswerKB(distance);
    }

    /** `add_question`: a new unanswered row in the tree, and a KB
      document tagged with its id whose answer is `str(None)`. */
    method AddQuestion(question: string, parentId: Option<int>) returns (id: nat)
      requires Valid()
      requires parentId.Some? ==> parentId.value < NextId(tree.rows)
      modifies tree, kb
      ensures Valid()
      ensures id == old(NextId(tree.rows)) && !HasId(old(tree.rows), id)
      ensures tree.rows == old(tree.rows) + [Row(id, question, None, None, parentId)]
      ensures tree.root == old(tree.root)
      ensures kb.docs == old(kb.docs) + [Document(DocId(|old(kb.docs)|, 0), Single(question),
                                                  StoredMetadata(Some(TreeTag(id)), ANone))]
    {
      id := tree.AddQuestion(question, parentId, None, None);
      AddTreeKeepsTagged(kb.docs, question, id, None);
      kb.AddTreeQuestion(question, id, None);
    }

    /** `answer_question`: the answer goes to the row, then to the KB
      through `update_tree_question`. */
    method AnswerQuestion(questionId: int, answer: string) returns (r: Result<(), KbError>)
      requires Valid()
      modifies tree, kb
      ensures Valid()
      ensures tree.rows == SetAnswer(old(tree.rows), questionId, answer) && tree.root == old(tree.root)
      ensures match TreeQuestionUpdate(old(kb.docs), kb.distance, questionId, answer)
        case Ok(updated) => r == Ok(()) && kb.docs == updated
        case Err(e) => r == Err(e) && kb.docs == old(kb.docs)
    {
      tree.UpdateAnswer(questionId, answer);
      ghost var before := kb.docs;
      r := kb.UpdateTreeQuestion(questionId, answer);
      TreeQuestionUpdateKeeps(before, kb.distance, questionId, answer);
    }

    /** `sync_kb_to_tree`: the answer of each KB result from the tree goes
      to its row when the row has none. */
    method SyncKbToTree() returns (failure: Option<SyncError>)
      requires Valid()
      modifies tree
      ensures Valid()
      ensures Synced(tree.rows, failure) == SyncKbToTreeResult(old(tree.rows), kb.docs, kb.distance)
      ensures tree.root == old(tree.root)
    {
      var questions := kb.GetTreeQuestions();
      if questions.Err? {
        return Some(KbFailed(questions.error));
      }
      var hits := questions.value;
      for i := 0 to |hits|
        invariant tree.Valid() && tree.root == old(tree.root)
        invariant SyncRows(old(tree.rows), hits[..i]) == Synced(tree.rows, None)
      {
        SyncRowsSnoc(old(tree.rows), hits, i);
        var h := hits[i];
        if "tree_id" !in h.metadata || !h.metadata["tree_id"].MInt? {
          failure := Some(if "tree_id" !in h.metadata then NoTreeId else BadTreeId);
          SyncRowsStops(old(tree.rows), hits, i + 1);
          return;
        }
        var treeId := h.metadata["tree_id"].i;
        if !IsAnswered(tree.rows, treeId) {
          tree.UpdateAnswer(treeId, AnswerText(h.answer));
        }
      }
      assert hits[..|hits|] == hits;
      failure := None;
    }

    /** `sync_tree_to_kb`: `update_tree_question` for every answered row,
      in table order. The tree is left as it is. */
    method SyncTreeToKb() returns (failure: Option<KbError>)
      requires Valid()
      modifies kb
      ensures Valid()
      ensures Pushed(kb.docs, failure) == PushAnswers(old(kb.docs), kb.distance, TreeUpdates(tree.rows))
    {
      var answered := AnsweredRows(tree.rows);
      ghost var updates := TreeUpdates(tree.rows);
      for i := 0 to |answered|
        invariant Valid()
        invariant PushAnswers(old(kb.docs), kb.distance, updates[..i]) == Pushed(kb.docs, None)
      {
        var r := PushOne(old(kb.docs), updates, i, answered[i].id, answered[i].answer.value);
        if r.Err? {
          failure := Some(r.error);
          PushStops(old(kb.docs), kb.distance, updates, i + 1);
          return;
        }
      }
      assert updates[..|updates|] == updates;
      failure := None;
    }

    /** One iteration of `sync_tree_to_kb`: `update_tree_question` for the
      `i`-th update, which extends the pass by one step. */
    method PushOne(ghost start: seq<Document>, ghost updates: seq<(int, string)>, i: nat,
                   treeId: int, answer: string) returns (r: Result<(), KbError>)
      requires Valid() && i < |updates| && updates[i] == (treeId, answer)
      requires PushAnswers(start, kb.distance, updates[..i]) == Pushed(kb.docs, None)
      modifies kb
      ensures Valid()
      ensures PushAnswers(start, kb.distance, updates[..i + 1])
           == Pushed(kb.docs, if r.Err? then Some(r.error) else None)
    {
      PushSnoc(start, kb.distance, updates, i);
      ghost var before := kb.docs;
      r := kb.UpdateTreeQuestion(treeId, answer);
      if r.Ok? {
        TreeQuestionUpdateKeeps(before, kb.distance, treeId, answer);
      }
    }

    /** `suggest_next_question`: builds the tree when none is cached,
      computes priorities, ranks the top ten and takes the first without
      a truthy answer. */
    method SuggestNextQuestion() returns (r: Result<Option<Suggestion>, TreeError>)
      requires Valid()
      modifies tree
      ensures Valid() && tree.rows == old(tree.rows)
      ensures r == Suggest(old(tree.rows), old(tree.root))
      ensures tree.root == SuggestedRoot(old(tree.rows), old(tree.root))
    {
      if tree.root.None? {
        tree.BuildTree();
      }
      tree.CalculatePriorities();
      ghost var t := RankedTree(old(tree.rows), old(tree.root));
      if t.Some? {
        PrioritizedIdempotent(t.value);
      }
      var high := tree.GetHighPriorityQuestions(SuggestLimit);
      match high
      case Err(e) =>
        r := Err(e);
      case Ok(nodes) =>
        r := Ok(FirstUnanswered(nodes));
    }
  }

  // ---------------------------------------------------------------------
  // Two discrepancies between the code and its evident intent
  // ---------------------------------------------------------------------

  /** The KB document `add_tree_question` stores for the question with
      tree id `t` when it has no answer: its answer is `str(None)`. */
  function PendingDoc(docId: string, question: string, t: int): Document {
    Document(docId, Single(question), StoredMetadata(Some(TreeTag(t)), ANone))
  }

  /** As written, `sync_kb_to_tree` reads the placeholder `str(None)` as
      an answer: right after `add_question` on an empty system, a pass
      marks the new question answered with the text "None". */
  lemma PlaceholderSynced(distance: (QuestionInput, QuestionInput) -> int, docId: string, question: string, t: nat)
    requires t >= 1
    ensures SyncKbToTreeResult([Row(t, question, None, None, None)], [PendingDoc(docId, question, t)], distance)
         == Synced([Row(t, question, Some("None"), None, None)], None)
  {
    var rows := [Row(t, question, None, None, None)];
    var h := PendingTreeQuestion(distance, docId, question, t);
    assert !IsAnswered(rows, t);
    var hits := [h];
    assert SyncRows(rows, hits[..0]) == Synced(rows, None);
  }

  /** A KB holding only that document holds one question from the tree,
      which names `t` and has the placeholder as its answer. */
  lemma PendingTreeQuestion(distance: (QuestionInput, QuestionInput) -> int, docId: string, question: string, t: int)
    returns (h: Hit)
    ensures TreeQuestions([PendingDoc(docId, question, t)], distance) == Ok([h])
    ensures h.answer == MStr("None") && TreeIdOf(h) == Ok(t)
  {
    var d := PendingDoc(docId, question, t);
    TaggedMetadata(t, ANone);
    h := OneTreeQuestion([d], distance);
    TaggedResult(t, ANone, h, d);
  }

  /** The metadata `add_tree_question` stores passes the filter of
      `get_tree_questions` and carries an answer. */
  lemma TaggedMetadata(t: int, a: AnswerValue)
    ensures var m := StoredMetadata(Some(TreeTag(t)), a);
      Matches(m, FromTreeFilter()) && TextAnswer(m)
  {
    var m := StoredMetadata(Some(TreeTag(t)), a);
    assert "from_tree" in m && m["from_tree"] == MBool(true);
  }

  /** A result read from such a document names `t` and has the stored
      answer. */
  lemma TaggedResult(t: int, a: AnswerValue, h: Hit, d: Document)
    requires d.metadata == StoredMetadata(Some(TreeTag(t)), a) && FromDoc(h, d)
    ensures TreeIdOf(h) == Ok(t) && h.answer == MStr(Str(a))
  {
    assert "tree_id" in d.metadata && d.metadata["tree_id"] == MInt(t);
    assert h.metadata == d.metadata - {"answer"};
    assert "tree_id" in h.metadata && h.metadata["tree_id"] == MInt(t);
  }

  /** A KB of one document from the tree holds one question from the
      tree: that document's. */
  lemma OneTreeQuestion(docs: seq<Document>, distance: (QuestionInput, QuestionInput) -> int) returns (h: Hit)
    requires |docs| == 1 && AnswersStored(docs) && Matches(docs[0].metadata, FromTreeFilter())
    ensures TreeQuestions(docs, distance) == Ok([h]) && FromDoc(h, docs[0])
  {
    QueryAnswered(docs, distance, Single(""), |docs|, Some(FromTreeFilter()), 0, "");
    TreeQuestionsFacts(docs, distance);
    var r := TreeQuestions(docs, distance).value;
    assert |r| > 0;
    forall m | 0 <= m < |r| ensures FromDoc(r[m], docs[0]) {
      assert FromSomeDoc(r[m], docs);
    }
    OneAnswerOneHit(r, docs[0].metadata["answer"]);
    h := r[0];
  }

  /** Hits with pairwise different answers that all share one answer are
      a single hit. */
  lemma OneAnswerOneHit(r: seq<Hit>, a: MetaValue)
    requires DistinctKeys(r, AnswerOf) && |r| > 0
    requires forall m :: 0 <= m < |r| ==> r[m].answer == a
    ensures r == [r[0]]
  {
    assert |r| <= 1 || AnswerOf(r[0]) != AnswerOf(r[1]);
  }

  /** Only `str(None)` reads back as the text "None"; integers and
      booleans never do. */
  lemma AnswerTextNone(v: MetaValue)
    ensures AnswerText(v) == "None" <==> v == MStr("None")
  {
    if v.MInt? {
      var t := IntToDecimal(v.i);
      assert t[0] == '-' || IsDigit(t[0]);
      assert "None"[0] == 'N';
    }
  }

  /** Whether a result carries an answer, rather than the placeholder
      `str(None)` of a question added without one. */
  predicate CarriesAnswer(h: Hit) {
    h.answer != MStr(Str(ANone))
  }

  /** `sync_kb_to_tree` as its guard evidently means it: results whose
      answer is the placeholder are skipped. */
  function SyncKbToTreeIntended(rows: Table, docs: seq<Document>,
                                distance: (QuestionInput, QuestionInput) -> int): (s: Synced)
    requires WellFormed(rows)
    ensures WellFormed(s.rows)
  {
    match TreeQuestions(docs, distance)
    case Err(e) => Synced(rows, Some(KbFailed(e)))
    case Ok(hits) => SyncRows(rows, Filter(hits, CarriesAnswer))
  }

  /** The intended pass never changes an answered row, and never writes
      the placeholder: a row it changes was unanswered and gets a real
      answer from a result naming it. */
  lemma IntendedSyncNoPlaceholder(rows: Table, docs: seq<Document>,
                                  distance: (QuestionInput, QuestionInput) -> int, k: int)
    requires WellFormed(rows)
    ensures var before := GetQuestion(rows, k);
      var after := GetQuestion(SyncKbToTreeIntended(rows, docs, distance).rows, k);
      || after == before
      || (&& before.Some? && before.value.answer.None?
          && after.Some? && after.value.(answer := None) == before.value
          && after.value.answer.Some? && after.value.answer.value != "None")
  {
    if TreeQuestions(docs, distance).Ok? {
      var hits := Filter(TreeQuestions(docs, distance).value, CarriesAnswer);
      SyncRowsEffect(rows, hits, k);
      NoPlaceholderWritten(GetQuestion(rows, k), GetQuestion(SyncRows(rows, hits).rows, k), hits, k);
    }
  }

  /** Results that all carry an answer never write the placeholder. */
  lemma NoPlaceholderWritten(before: Option<Row>, after: Option<Row>, hits: seq<Hit>, k: int)
    requires SyncedRow(before, after, hits, k)
    requires forall j :: 0 <= j < |hits| ==> CarriesAnswer(hits[j])
    ensures || after == before
            || (&& before.Some? && before.value.answer.None?
                && after.Some? && after.value.(answer := None) == before.value
                && after.value.answer.Some? && after.value.answer.value != "None")
  {
    if after != before {
      var j :| 0 <= j < |hits| && TreeIdOf(hits[j]) == Ok(k)
               && after == Some(before.value.(answer := Some(AnswerText(hits[j].answer))));
      AnswerTextNone(hits[j].answer);
    }
  }

  /** As written, `suggest_next_question` ranks the tree cached by the
      first call: once a question is suggested and then answered, the
      next call suggests it again. */
  lemma StaleSuggestion()
    ensures var r := Row(1, "q", None, None, None);
      var s := Suggestion(1, "q", None, 1);
      var answered := [r.(answer := Some("a"))];
      && Suggest([r], None) == Ok(Some(s))
      && SetAnswer([r], 1, "a") == answered
      && IsAnswered(answered, 1)
      && Suggest(answered, SuggestedRoot([r], None)) == Ok(Some(s))
  {
    var r := Row(1, "q", None, None, None);
    var rows := [r];
    var answered := [r.(answer := Some("a"))];
    assert FirstRoot(rows) == Some(r);
    assert ChildrenOf(rows, 1) == [];
    var leaf := Node(r, [], 0);
    assert SubtreeAt(rows, r) == leaf;
    var ranked := Node(r, [], 1);
    assert Prioritized(leaf) == ranked && Prioritized(ranked) == ranked;
    assert FlattenAll(ranked.children) == [];
    assert Flatten(ranked) == [ranked];
    assert SortDesc([ranked], PriorityOf) == [ranked];
    assert Ranked(ranked, SuggestLimit) == [ranked];
    assert Filter([ranked], Unanswered) == [ranked];
    assert SetAnswer(rows, 1, "a") == answered;
    assert GetQuestion(answered, 1) == Some(answered[0]);
  }

  /** `suggest_next_question` as evidently intended: the tree is built
      afresh from the table on every call. */
  function SuggestFresh(rows: Table): Result<Option<Suggestion>, TreeError>
    requires WellFormed(rows)
  {
    Suggest(rows, None)
  }

  /** A fresh suggestion is a question of the table as it is now, and the
      table records no truthy answer for it. */
  lemma SuggestFreshIsCurrent(rows: Table)
    requires WellFormed(rows)
    ensures SuggestFresh(rows).Ok? && SuggestFresh(rows).value.Some? ==>
      var s := SuggestFresh(rows).value.value;
      && GetQuestion(rows, s.id).Some?
      && GetQuestion(rows, s.id).value.question == s.question
      && GetQuestion(rows, s.id).value.parentId == s.parentId
      && (GetQuestion(rows, s.id).value.answer.None? || GetQuestion(rows, s.id).value.answer.value == "")
  {
    var k := SuggestFacts(rows, None);
    if SuggestFresh(rows).Ok? && SuggestFresh(rows).value.Some? {
      var r0 := FirstRoot(rows).value;
      var t := SubtreeAt(rows, r0);
      var ranked := Ranked(Prioritized(t), SuggestLimit);
      var x := ranked[k];
      var y := RankedRow(t, x);
      SubtreeRowsIn(rows, r0, y);
      var i :| 0 <= i < |rows| && rows[i] == y.row;
      GetQuestionIsTheRow(rows, i);
    }
  }

  /** A node of the ranking carries the row of a node of the tree before
      priorities were computed. */
  lemma RankedRow(t: Node, x: Node) returns (y: Node)
    requires x in Ranked(Prioritized(t), SuggestLimit)
    ensures y in Flatten(t) && y.row == x.row
  {
    var f := Flatten(Prioritized(t));
    TopFrom(f, PriorityOf, SuggestLimit, x);
    var p :| 0 <= p < |f| && f[p] == x;
    PrioritizedKeepsRows(t);
    assert RowsOf(f)[p] == x.row;
    y := Flatten(t)[p];
  }

  /** With the fresh tree, a question just given a non-empty answer is
      never the next suggestion. */
  lemma AnsweredNotSuggested(rows: Table, id: int, answer: string)
    requires WellFormed(rows) && answer != ""
    ensures WellFormed(SetAnswer(rows, id, answer))
    ensures var r := SuggestFresh(SetAnswer(rows, id, answer));
      r.Ok? && r.value.Some? ==> r.value.value.id != id
  {
    SetAnswerWellFormed(rows, id, answer);
    var after := SetAnswer(rows, id, answer);
    SuggestFreshIsCurrent(after);
    SetAnswerLookup(rows, id, answer, id);
  }
}
