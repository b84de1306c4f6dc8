/** The `QuestionAnswerKB` class of qa_kb.py over a vector store modelled
    as its list of documents. The embedding model is the `distance` the
    store ranks by; the completion service is the `reply` text passed in. */
module QaKb {
  import opened Wrappers
  import opened Sequences
  import opened QaKbRecords

  class QuestionAnswerKB {
    /** The collection's documents, in insertion order. */
    var docs: seq<Document>
    /** The distance the store computes between two texts' embeddings. */
    const distance: (QuestionInput, QuestionInput) -> int

    ghost predicate Valid()
      reads this
    {
      IdsIssued(docs) && AnswersStored(docs)
    }

    /** A new, empty collection ranked by `distance`. */
    constructor (distance: (QuestionInput, QuestionInput) -> int)
      ensures Valid() && docs == [] && this.distance == distance
    {
      this.distance := distance;
      docs := [];
    }

    /** `add_qa`: one document per selected question, all with the same
        metadata and ids `qa_{count}_{i}`; returns the selected questions.
        A list given without rewordings is selected as one question, a
        list, which `set(questions)` cannot hash: the call raises. */
    method AddQa(question: QuestionInput, answer: AnswerValue, metadata: Option<Metadata>,
                 numRewordings: int, reply: string) returns (r: Result<set<QuestionInput>, KbError>)
      requires Valid()
      modifies this
      ensures Valid()
      ensures question.Several? && numRewordings <= 0 ==>
        r == Err(UnhashableQuestion) && docs == old(docs)
      ensures question.Single? || numRewordings > 0 ==>
        var qs := SelectQuestions(question, numRewordings, reply);
        && docs == old(docs) + Batch(qs, StoredMetadata(metadata, answer), |old(docs)|)
        && r == Ok(set k | 0 <= k < |qs| :: qs[k])
    {
      if question.Several? && numRewordings <= 0 {
        return Err(UnhashableQuestion);
      }
      var m := StoredMetadata(metadata, answer);
      var questions := SelectQuestions(question, numRewordings, reply);
      var batch := BuildBatch(questions, m, |docs|);
      BatchKeepsIdsIssued(docs, questions, m);
      BatchKeepsAnswersStored(docs, questions, metadata, answer);
      docs := docs + batch;
      r := Ok(set k | 0 <= k < |questions| :: questions[k]);
    }

    /** `query`: every selected text is sent to the store, the hits are
        shaped and pooled in order, the first hit per answer is kept, and
        the kept hits are sorted by similarity and cut to `n`. */
    method Query(question: QuestionInput, n: int, filter: Option<Metadata>, numRewordings: int, reply: string)
      returns (r: Result<seq<Hit>, KbError>)
      ensures r == QueryResult(docs, distance, question, n, filter, numRewordings, reply)
    {
      var questions := SelectQuestions(question, numRewordings, reply);
      var where := if filter.Some? && |filter.value| > 0 then filter else None;
      var pooled := PoolHits(questions, n, where);
      match pooled
      case Err(e) =>
        r := Err(e);
      case Ok(all) =>
        var unique := DedupAnswers(all);
        r := Ok(Prefix(SortDesc(unique, SimilarityOf), n));
    }

    /** The loop of `query` over the selected texts: each text's hits are
        shaped and appended in the store's order; the first hit without an
        answer raises. */
    method PoolHits(questions: seq<QuestionInput>, n: int, where: Option<Metadata>)
      returns (r: Result<seq<Hit>, KbError>)
      ensures r == ShapeAll(Pool(docs, distance, questions, n, where))
    {
      var store := docs;
      var all: seq<Hit> := [];
      for i := 0 to |questions|
        invariant ShapeAll(Pool(store, distance, questions[..i], n, where)) == Ok(all)
      {
        var pooled := Pool(store, distance, questions[..i], n, where);
        var results := StoreQuery(store, distance, questions[i], n, where);
        PoolSnoc(store, distance, questions, i, n, where);
        var step := ShapeInto(pooled, results, all);
        if step.Err? {
          PoolPrefix(store, distance, questions, i + 1, n, where);
          ShapeAllPrefixFails(Pool(store, distance, questions, n, where), |pooled + results|);
          return Err(MissingAnswer);
        }
        all := step.value;
      }
      assert questions[..|questions|] == questions;
      r := Ok(all);
    }

    /** `update_answer`: the document nearest to `question` gets it as its
        text and `str(newAnswer)` as its answer; an empty store raises. */
    method UpdateAnswer(question: QuestionInput, newAnswer: AnswerValue) returns (r: Result<(), KbError>)
      requires Valid()
      modifies this
      ensures Valid()
      ensures match AnswerUpdate(old(docs), distance, question, newAnswer)
        case Ok(updated) => r == Ok(()) && docs == updated
        case Err(e) => r == Err(e) && docs == old(docs)
    {
      var results := StoreQuery(docs, distance, question, 1, None);
      if |results| > 0 {
        var id := results[0].id;
        var metadata := results[0].metadata["answer" := MStr(Str(newAnswer))];
        UpdateKeepsIdsIssued(docs, id, question, metadata);
        docs := UpdateDoc(docs, id, question, metadata);
        r := Ok(());
      } else {
        r := Err(QuestionNotFound);
      }
    }

    /** `add_tree_question`: one document tagged with the tree id, with
        the answer given (`str(None)` when there is none). */
    method AddTreeQuestion(question: string, treeId: int, answer: Option<string>)
      requires Valid()
      modifies this
      ensures Valid()
      ensures docs == old(docs) + [Document(DocId(|old(docs)|, 0), Single(question),
                                            StoredMetadata(Some(TreeTag(treeId)), OptionalAnswer(answer)))]
    {
      var added := AddQa(Single(question), OptionalAnswer(answer), Some(TreeTag(treeId)), 0, "");
    }

    /** `get_tree_questions`: the query for the empty text over the
        documents from the tree, with room for all documents. */
    method GetTreeQuestions() returns (r: Result<seq<Hit>, KbError>)
      ensures r == TreeQuestions(docs, distance)
    {
      r := Query(Single(""), |docs|, Some(FromTreeFilter()), 0, "");
    }

    /** `update_tree_question`: finds the question of the tagged document
        nearest to the empty text and updates the answer of that
        question; with no tagged document nothing happens. */
    method UpdateTreeQuestion(treeId: int, answer: string) returns (r: Result<(), KbError>)
      requires Valid()
      modifies this
      ensures Valid()
      ensures match TreeQuestionUpdate(old(docs), distance, treeId, answer)
        case Ok(updated) => r == Ok(()) && docs == updated
        case Err(e) => r == Err(e) && docs == old(docs)
    {
      var results := Query(Single(""), 1, Some(TreeIdFilter(treeId)), 0, "");
      match results
      case Err(e) =>
        r := Err(e);
      case Ok(hits) =>
        if |hits| > 0 {
          r := UpdateAnswer(hits[0].question, AText(answer));
        } else {
          r := Ok(());
        }
    }
  }

  /** The de-duplication loop of `query`: a hit is kept when its answer
      is not among the answers seen so far. */
  method DedupAnswers(all: seq<Hit>) returns (unique: seq<Hit>)
    ensures unique == DedupBy(all, AnswerOf)
  {
    var seen: set<MetaValue> := {};
    unique := [];
    for j := 0 to |all|
      invariant unique == DedupBy(all[..j], AnswerOf)
      invariant seen == KeysOf(unique, AnswerOf)
    {
      DedupSnoc(all, j);
      KeysOfSnoc(unique, all[j], AnswerOf);
      if all[j].answer !in seen {
        seen := seen + {all[j].answer};
        unique := unique + [all[j]];
      }
    }
    assert all[..|all|] == all;
  }

  /** The loop of `add_qa`: the documents, metadata copies and ids are
      collected column by column, then handed to the store together. */
  method BuildBatch(questions: seq<QuestionInput>, m: Metadata, count: nat) returns (batch: seq<Document>)
    ensures batch == Batch(questions, m, count)
  {
    var documents: seq<QuestionInput> := [];
    var metadatas: seq<Metadata> := [];
    var ids: seq<string> := [];
    for i := 0 to |questions|
      invariant documents == questions[..i] && |metadatas| == i && |ids| == i
      invariant forall k :: 0 <= k < i ==> metadatas[k] == m && ids[k] == DocId(count, k)
    {
      documents := documents + [questions[i]];
      metadatas := metadatas + [m];
      ids := ids + [DocId(count, i)];
    }
    batch := seq(|questions|, k requires 0 <= k < |questions| => Document(ids[k], documents[k], metadatas[k]));
    BatchByColumns(questions, m, count, ids, documents, metadatas, batch);
  }

  /** The batch assembled column by column is the batch of `add_qa`. */
  lemma BatchByColumns(questions: seq<QuestionInput>, m: Metadata, count: nat, ids: seq<string>,
                       documents: seq<QuestionInput>, metadatas: seq<Metadata>, batch: seq<Document>)
    requires documents == questions && |metadatas| == |questions| && |ids| == |questions|
    requires forall k :: 0 <= k < |questions| ==> metadatas[k] == m && ids[k] == DocId(count, k)
    requires |batch| == |questions|
    requires forall k :: 0 <= k < |questions| ==> batch[k] == Document(ids[k], documents[k], metadatas[k])
    ensures batch == Batch(questions, m, count)
  {
  }

  /** The inner loop of `query`: the hits of one text are shaped and
      appended in the store's order; the first hit without an answer
      raises. */
  method ShapeInto(pooled: seq<StoreHit>, results: seq<StoreHit>, shaped: seq<Hit>)
    returns (r: Result<seq<Hit>, KbError>)
    requires ShapeAll(pooled) == Ok(shaped)
    ensures r == ShapeAll(pooled + results)
  {
    var all := shaped;
    assert pooled + results[..0] == pooled;
    for j := 0 to |results|
      invariant ShapeAll(pooled + results[..j]) == Ok(all)
    {
      var h := results[j];
      if "answer" !in h.metadata {
        ShapeAllFails(pooled + results, |pooled| + j);
        return Err(MissingAnswer);
      }
      assert pooled + results[..j + 1] == (pooled + results[..j]) + [h];
      ShapeAllSnoc(pooled + results[..j], h, all);
      all := all + [Hit(h.document, h.metadata["answer"], h.metadata - {"answer"}, 1 - h.distance)];
    }
    assert pooled + results[..|results|] == pooled + results;
    r := Ok(all);
  }

  /** Shaping one more hit that has an answer extends the shaped list. */
  lemma ShapeAllSnoc(front: seq<StoreHit>, h: StoreHit, all: seq<Hit>)
    requires "answer" in h.metadata && ShapeAll(front) == Ok(all)
    ensures ShapeAll(front + [h])
      == Ok(all + [Hit(h.document, h.metadata["answer"], h.metadata - {"answer"}, 1 - h.distance)])
  {
    var hits := front + [h];
    assert hits[..|hits| - 1] == front;
  }

  /** One hit without an answer makes the shaping fail. */
  lemma ShapeAllFails(hits: seq<StoreHit>, p: nat)
    requires p < |hits| && "answer" !in hits[p].metadata
    ensures ShapeAll(hits) == Err(MissingAnswer)
  {
  }

  /** Shaping fails on the whole pool when it fails on a prefix of it. */
  lemma ShapeAllPrefixFails(hits: seq<StoreHit>, k: nat)
    requires k <= |hits| && ShapeAll(hits[..k]).Err?
    ensures ShapeAll(hits) == Err(MissingAnswer)
  {
    var p :| 0 <= p < k && "answer" !in hits[..k][p].metadata;
    ShapeAllFails(hits, p);
  }

  /** The pool of one more text is the pool so far and that text's hits. */
  lemma PoolSnoc(docs: seq<Document>, distance: (QuestionInput, QuestionInput) -> int,
                 questions: seq<QuestionInput>, i: nat, n: int, where: Option<Metadata>)
    requires i < |questions|
    ensures Pool(docs, distance, questions[..i + 1], n, where)
      == Pool(docs, distance, questions[..i], n, where) + StoreQuery(docs, distance, questions[i], n, where)
  {
    assert questions[..i + 1][..i] == questions[..i];
  }

  /** De-duplicating one more hit keeps it exactly when its answer is new. */
  lemma DedupSnoc(all: seq<Hit>, j: nat)
    requires j < |all|
    ensures var u := DedupBy(all[..j], AnswerOf);
      DedupBy(all[..j + 1], AnswerOf) == if all[j].answer in KeysOf(u, AnswerOf) then u else u + [all[j]]
  {
    assert all[..j + 1][..j] == all[..j];
  }

  /** The `answer` argument of `add_tree_question`. */
  function OptionalAnswer(answer: Option<string>): AnswerValue {
    if answer.Some? then AText(answer.value) else ANone
  }
}
