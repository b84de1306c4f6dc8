/** The record shaping and list processing of qa_kb.py, with the vector
    store, the embedding model and the completion service replaced by
    plain inputs: which query texts a call uses, how `generate_rewordings`
    cleans up the completion, how a store hit becomes a result, how the
    hits of several queries are merged, which documents `add_qa` writes
    and which generated QA pairs are accepted. */
module QaKbRecords {
  import opened Wrappers
  import opened Sequences
  import opened Text
  import opened Helpers

  // ---------------------------------------------------------------------
  // Values
  // ---------------------------------------------------------------------

  /** A metadata value in the store (strings, integers and booleans). */
  datatype MetaValue = MStr(s: string) | MInt(i: int) | MBool(b: bool)

  type Metadata = map<string, MetaValue>

  /** The `answer` argument of `add_qa`, which may be any value. */
  datatype AnswerValue = ANone | AText(text: string) | AInt(n: int) | ABool(b: bool)

  /** Python's `str(answer)`. Once stored, a missing answer cannot be told
      apart from the text "None": `str` maps exactly these two to it. */
  function Str(a: AnswerValue): (s: string)
    ensures s == "None" <==> a == ANone || a == AText("None")
  {
    match a
    case ANone => "None"
    case AText(t) => t
    case AInt(n) =>
      var d := IntToDecimal(n);
      assert d[0] == '-' || IsDigit(d[0]);
      assert "None"[0] == 'N';
      d
    case ABool(b) => if b then "True" else "False"
  }

  /** The `question` argument of `add_qa` and `query`: one text or a list. */
  datatype QuestionInput = Single(text: string) | Several(texts: seq<string>)

  // ---------------------------------------------------------------------
  // Which texts are indexed or queried
  // ---------------------------------------------------------------------

  /** `generate_rewordings` once the completion `reply` is known: with no
      rewordings asked for, the question alone and unchanged; otherwise the
      question followed by the lines of the stripped reply, each stripped. */
  function GenerateRewordings(question: string, numRewordings: int, reply: string): (qs: seq<string>)
    ensures numRewordings == 0 ==> qs == [question]
    ensures |qs| >= 1
  {
    if numRewordings == 0 then [question]
    else
      var lines := [question] + Split(Strip(reply), '\n');
      seq(|lines|, i requires 0 <= i < |lines| => Strip(lines[i]))
  }

  /** With rewordings, the result is the stripped question, then one entry
      per line of the reply, and every entry is already stripped. */
  lemma RewordingsShape(question: string, numRewordings: int, reply: string)
    requires numRewordings != 0
    ensures var qs := GenerateRewordings(question, numRewordings, reply);
      && |qs| == 2 + Occurrences('\n', Strip(reply))
      && qs[0] == Strip(question)
      && (forall k :: 0 <= k < |qs| ==> Strip(qs[k]) == qs[k])
  {
    SplitCount(Strip(reply), '\n');
    var qs := GenerateRewordings(question, numRewordings, reply);
    forall k | 0 <= k < |qs| ensures Strip(qs[k]) == qs[k] {
      var lines := [question] + Split(Strip(reply), '\n');
      StripIdempotent(lines[k]);
    }
  }

  /** A reply made of stripped, non-empty lines yields exactly those lines
      after the stripped question. */
  lemma RewordingsRoundTrip(question: string, numRewordings: int, lines: seq<string>)
    requires numRewordings != 0 && |lines| >= 1
    requires forall k :: 0 <= k < |lines| ==> lines[k] != [] && '\n' !in lines[k] && Strip(lines[k]) == lines[k]
    ensures GenerateRewordings(question, numRewordings, Join(lines, '\n')) == [Strip(question)] + lines
  {
    ReplyLines(lines);
    StripEach([question] + lines);
  }

  /** The lines of such a reply are the lines it was joined from. */
  lemma ReplyLines(lines: seq<string>)
    requires |lines| >= 1
    requires forall k :: 0 <= k < |lines| ==> lines[k] != [] && '\n' !in lines[k] && Strip(lines[k]) == lines[k]
    ensures Split(Strip(Join(lines, '\n')), '\n') == lines
  {
    StrippedJoin(lines);
    SplitJoin(lines, '\n');
  }

  /** Stripping each entry of a list whose tail is already stripped changes
      its head only. */
  lemma StripEach(all: seq<string>)
    requires |all| >= 1 && forall k :: 1 <= k < |all| ==> Strip(all[k]) == all[k]
    ensures seq(|all|, i requires 0 <= i < |all| => Strip(all[i])) == [Strip(all[0])] + all[1..]
  {
  }

  /** Joining stripped, non-empty lines gives a stripped text. */
  lemma StrippedJoin(lines: seq<string>)
    requires |lines| >= 1
    requires forall k :: 0 <= k < |lines| ==> lines[k] != [] && Strip(lines[k]) == lines[k]
    ensures Strip(Join(lines, '\n')) == Join(lines, '\n')
  {
    var first := lines[0];
    var last := lines[|lines| - 1];
    JoinStart(lines, '\n');
    JoinEnd(lines, '\n');
    assert Strip(first) == first && Strip(last) == last;
    StripStripped(Join(lines, '\n'));
  }

  /** The question-set selection of `add_qa` and `query`: a text with
      rewordings asked for gives the rewordings, a list with rewordings
      asked for is used as it is, and anything else is queried as the
      single entry `[question]`. `reply` is what the completion service
      would answer; it is read only in the first case. */
  function SelectQuestions(question: QuestionInput, numRewordings: int, reply: string): (qs: seq<QuestionInput>)
    ensures numRewordings <= 0 ==> qs == [question]
    ensures numRewordings > 0 && question.Several? ==>
      |qs| == |question.texts| && forall k :: 0 <= k < |qs| ==> qs[k] == Single(question.texts[k])
    ensures numRewordings > 0 && question.Single? ==>
      var rs := GenerateRewordings(question.text, numRewordings, reply);
      |qs| == |rs| && forall k :: 0 <= k < |qs| ==> qs[k] == Single(rs[k])
  {
    if numRewordings > 0 then
      match question
      case Single(text) =>
        var rs := GenerateRewordings(text, numRewordings, reply);
        seq(|rs|, k requires 0 <= k < |rs| => Single(rs[k]))
      case Several(texts) =>
        seq(|texts|, k requires 0 <= k < |texts| => Single(texts[k]))
    else [question]
  }

  // ---------------------------------------------------------------------
  // Documents, store hits and shaped results
  // ---------------------------------------------------------------------

  /** A stored document: its id, its question text and its metadata. */
  datatype Document = Document(id: string, text: QuestionInput, metadata: Metadata)

  /** One hit of a store query: a document and its distance to the query. */
  datatype StoreHit = StoreHit(id: string, document: QuestionInput, metadata: Metadata, distance: int)

  /** One entry of the list `query` returns. */
  datatype Hit = Hit(question: QuestionInput, answer: MetaValue, metadata: Metadata, similarity: int)

  datatype KbError =
    | MissingAnswer      // the KeyError of `metadata["answer"]` on a hit without one
    | QuestionNotFound   // the ValueError of `update_answer` on an empty store
    | UnhashableQuestion // the TypeError of `set(questions)` in `add_qa` on a list without rewordings

  /** Turning one store hit into a result: the answer comes out of the
      metadata, and the similarity is one minus the distance. */
  function ShapeHit(h: StoreHit): (r: Result<Hit, KbError>)
    ensures r.Err? <==> "answer" !in h.metadata
    ensures r.Ok? ==> r.value.question == h.document && r.value.answer == h.metadata["answer"]
    ensures r.Ok? ==> r.value.similarity + h.distance == 1
    ensures r.Ok? ==> "answer" !in r.value.metadata
    ensures r.Ok? ==> forall k :: k != "answer" ==> (k in r.value.metadata <==> k in h.metadata)
    ensures r.Ok? ==> forall k :: k in r.value.metadata ==> r.value.metadata[k] == h.metadata[k]
  {
    if "answer" !in h.metadata then Err(MissingAnswer)
    else Ok(Hit(h.document, h.metadata["answer"], h.metadata - {"answer"}, 1 - h.distance))
  }

  /** Shaping loses nothing: putting the answer back gives the stored
      metadata. */
  lemma ShapeHitLosesNothing(h: StoreHit)
    requires ShapeHit(h).Ok?
    ensures var x := ShapeHit(h).value;
      x.metadata["answer" := x.answer] == h.metadata && 1 - x.similarity == h.distance
  {
    var x := ShapeHit(h).value;
    var m := x.metadata["answer" := x.answer];
    forall k | k in h.metadata ensures k in m && m[k] == h.metadata[k] {
    }
    forall k | k in m ensures k in h.metadata {
    }
  }

  /** A `where` filter: each of its keys is in the metadata with that value. */
  predicate Matches(metadata: Metadata, where: Metadata) {
    forall k :: k in where ==> k in metadata && metadata[k] == where[k]
  }

  /** Every document paired with its distance to the query text. */
  function HitsOf(docs: seq<Document>, distance: (QuestionInput, QuestionInput) -> int, text: QuestionInput)
    : seq<StoreHit>
  {
    seq(|docs|, i requires 0 <= i < |docs| =>
      StoreHit(docs[i].id, docs[i].text, docs[i].metadata, distance(text, docs[i].text)))
  }

  function Closeness(h: StoreHit): int { -h.distance }

  /** The documents a filter lets through. */
  function Candidates(docs: seq<Document>, where: Option<Metadata>): (ds: seq<Document>)
    ensures |ds| <= |docs|
    ensures forall i :: 0 <= i < |ds| ==> ds[i] in docs && (where.Some? ==> Matches(ds[i].metadata, where.value))
    ensures forall i :: 0 <= i < |docs| && (where.Some? ==> Matches(docs[i].metadata, where.value)) ==> docs[i] in ds
  {
    match where
    case None => docs
    case Some(w) => Filter(docs, (d: Document) => Matches(d.metadata, w))
  }

  /** What the store answers to one query: the `n` documents that pass the
      filter that are nearest to the query text, nearest first. */
  function StoreQuery(docs: seq<Document>, distance: (QuestionInput, QuestionInput) -> int,
                      text: QuestionInput, n: int, where: Option<Metadata>): (hits: seq<StoreHit>)
    ensures var c := |Candidates(docs, where)|;
      |hits| == if n <= 0 then 0 else if n <= c then n else c
    ensures NonIncreasing(hits, Closeness)
  {
    var hs := HitsOf(Candidates(docs, where), distance, text);
    TopByKey(hs, Closeness, if n < 0 then 0 else n);
    Prefix(SortDesc(hs, Closeness), if n < 0 then 0 else n)
  }

  // ---------------------------------------------------------------------
  // The result merge of `query`
  // ---------------------------------------------------------------------

  /** The hits of the queries for `questions`, query by query, each in the
      store's order: `all_results` before shaping. */
  function Pool(docs: seq<Document>, distance: (QuestionInput, QuestionInput) -> int,
                questions: seq<QuestionInput>, n: int, where: Option<Metadata>): seq<StoreHit>
  {
    if |questions| == 0 then []
    else Pool(docs, distance, questions[..|questions| - 1], n, where)
         + StoreQuery(docs, distance, questions[|questions| - 1], n, where)
  }

  /** Shaping the pooled hits in order; the first hit without an answer
      stops the query. */
  function ShapeAll(hits: seq<StoreHit>): (r: Result<seq<Hit>, KbError>)
    ensures r.Err? <==> exists i :: 0 <= i < |hits| && "answer" !in hits[i].metadata
    ensures r.Ok? ==> |r.value| == |hits| && forall i :: 0 <= i < |hits| ==> ShapeHit(hits[i]) == Ok(r.value[i])
    ensures r.Err? ==> r == Err(MissingAnswer)
  {
    if |hits| == 0 then Ok([])
    else
      var front := hits[..|hits| - 1];
      var last := hits[|hits| - 1];
      match ShapeAll(front)
      case Err(e) => Err(e)
      case Ok(shaped) =>
        match ShapeHit(last)
        case Err(e) => Err(e)
        case Ok(h) => Ok(shaped + [h])
  }

  function AnswerOf(h: Hit): MetaValue { h.answer }

  function SimilarityOf(h: Hit): int { h.similarity }

  /** The end of `query`: the first hit for each answer, sorted by
      decreasing similarity, cut to `n` as `[:n]` does. */
  function MergeResults(hits: seq<Hit>, n: int): seq<Hit>
  {
    Prefix(SortDesc(DedupBy(hits, AnswerOf), SimilarityOf), n)
  }

  /** `query`: the selected texts are each sent to the store, the hits
      pooled and shaped, then merged. An empty filter counts as none. */
  function QueryResult(docs: seq<Document>, distance: (QuestionInput, QuestionInput) -> int,
                       question: QuestionInput, n: int, filter: Option<Metadata>,
                       numRewordings: int, reply: string): (r: Result<seq<Hit>, KbError>)
    ensures r.Err? ==> r == Err(MissingAnswer)
    ensures r.Ok? ==> DistinctKeys(r.value, AnswerOf) && NonIncreasing(r.value, SimilarityOf)
    ensures r.Ok? && n >= 0 ==> |r.value| <= n
  {
    var questions := SelectQuestions(question, numRewordings, reply);
    var where := if filter.Some? && |filter.value| > 0 then filter else None;
    match ShapeAll(Pool(docs, distance, questions, n, where))
    case Err(e) => Err(e)
    case Ok(hits) => MergeFacts(hits, n); Ok(MergeResults(hits, n))
  }

  /** The merged results have pairwise different answers; there are `n`
      of them or one per distinct answer in the pool, whichever is fewer;
      they are in non-increasing similarity; and each is the first hit in
      the pool with its answer. */
  lemma MergeFacts(hits: seq<Hit>, n: int)
    ensures var r := MergeResults(hits, n); var keys := KeysOf(hits, AnswerOf);
      && DistinctKeys(r, AnswerOf)
      && (n >= 0 ==> |r| == if n <= |keys| then n else |keys|)
      && NonIncreasing(r, SimilarityOf)
      && (forall m :: 0 <= m < |r| ==>
            r[m].answer in keys && r[m] == hits[FirstIndex(hits, AnswerOf, r[m].answer)])
  {
    var u := DedupBy(hits, AnswerOf);
    var r := MergeResults(hits, n);
    DedupDistinct(hits, AnswerOf);
    TopByKey(u, SimilarityOf, n);
    SubMultisetDistinctKeys(r, u, AnswerOf);
    MergeKeepsFirsts(hits, n);
  }

  /** Each merged result is the first hit in the pool with its answer. */
  lemma MergeKeepsFirsts(hits: seq<Hit>, n: int)
    ensures var r := MergeResults(hits, n);
      forall m :: 0 <= m < |r| ==>
        r[m].answer in KeysOf(hits, AnswerOf) && r[m] == hits[FirstIndex(hits, AnswerOf, r[m].answer)]
  {
    var u := DedupBy(hits, AnswerOf);
    var r := MergeResults(hits, n);
    TopByKey(u, SimilarityOf, n);
    forall m | 0 <= m < |r|
      ensures r[m].answer in KeysOf(hits, AnswerOf) && r[m] == hits[FirstIndex(hits, AnswerOf, r[m].answer)]
    {
      assert r[m] in multiset(u);
      DedupMember(hits, AnswerOf, r[m]);
    }
  }

  /** Nothing is cut while something worse is kept: the first hit of an
      answer missing from the result is no more similar than any result. */
  lemma MergeKeepsBest(hits: seq<Hit>, n: int, a: MetaValue)
    requires a in KeysOf(hits, AnswerOf) && a !in KeysOf(MergeResults(hits, n), AnswerOf)
    ensures forall i :: 0 <= i < |MergeResults(hits, n)| ==>
      hits[FirstIndex(hits, AnswerOf, a)].similarity <= MergeResults(hits, n)[i].similarity
  {
    var u := DedupBy(hits, AnswerOf);
    var r := MergeResults(hits, n);
    var p := DedupHolds(hits, a);
    var y := u[p];
    assert forall q :: 0 <= q < |r| ==> r[q].answer != a;
    assert y !in r;
    TopKeepsBetter(u, SimilarityOf, n, y);
  }

  /** Where de-duplication keeps the first hit with a given answer. */
  lemma DedupHolds(hits: seq<Hit>, a: MetaValue) returns (p: nat)
    requires a in KeysOf(hits, AnswerOf)
    ensures var u := DedupBy(hits, AnswerOf);
      p < |u| && u[p].answer == a && u[p] == hits[FirstIndex(hits, AnswerOf, a)]
  {
    var u := DedupBy(hits, AnswerOf);
    DedupDistinct(hits, AnswerOf);
    assert a in KeysOf(u, AnswerOf);
    p :| 0 <= p < |u| && u[p].answer == a;
    DedupKeepsFirst(hits, AnswerOf);
  }

  /** Results with equal similarity are in the order their answers were
      first seen in the pool. */
  lemma MergeTiesFirstSeen(hits: seq<Hit>, n: int, i: nat, j: nat)
    requires i < j < |MergeResults(hits, n)|
    requires MergeResults(hits, n)[i].similarity == MergeResults(hits, n)[j].similarity
    ensures var r := MergeResults(hits, n);
      && r[i].answer in KeysOf(hits, AnswerOf) && r[j].answer in KeysOf(hits, AnswerOf)
      && FirstIndex(hits, AnswerOf, r[i].answer) < FirstIndex(hits, AnswerOf, r[j].answer)
  {
    var u := DedupBy(hits, AnswerOf);
    var r := MergeResults(hits, n);
    TopStable(u, SimilarityOf, n, i, j);
    var p, q :| 0 <= p < q < |u| && u[p] == r[i] && u[q] == r[j];
    DedupOrder(hits, p, q);
  }

  /** De-duplication keeps the first-seen order of the answers. */
  lemma DedupOrder(hits: seq<Hit>, p: nat, q: nat)
    requires p < q < |DedupBy(hits, AnswerOf)|
    ensures var u := DedupBy(hits, AnswerOf);
      && u[p].answer in KeysOf(hits, AnswerOf) && u[q].answer in KeysOf(hits, AnswerOf)
      && FirstIndex(hits, AnswerOf, u[p].answer) < FirstIndex(hits, AnswerOf, u[q].answer)
  {
    DedupKeepsFirst(hits, AnswerOf);
  }

  /** De-duplication drops repeats only: with room for all, every distinct
      answer of the pool is in the result exactly once. */
  lemma MergeKeepsEveryAnswer(hits: seq<Hit>, n: int)
    requires n >= |KeysOf(hits, AnswerOf)|
    ensures KeysOf(MergeResults(hits, n), AnswerOf) == KeysOf(hits, AnswerOf)
  {
    var u := DedupBy(hits, AnswerOf);
    DedupDistinct(hits, AnswerOf);
    SortDescWhole(u, SimilarityOf, n);
    SameElementsSameKeys(MergeResults(hits, n), u, AnswerOf);
  }

  /** The hits of the queries for a prefix of the texts start the pool of
      all of them. */
  lemma {:induction false} PoolPrefix(docs: seq<Document>, distance: (QuestionInput, QuestionInput) -> int,
                                      questions: seq<QuestionInput>, k: nat, n: int, where: Option<Metadata>)
    requires k <= |questions|
    ensures var p := Pool(docs, distance, questions[..k], n, where);
      |p| <= |Pool(docs, distance, questions, n, where)| && p == Pool(docs, distance, questions, n, where)[..|p|]
    decreases |questions|
  {
    if k < |questions| {
      var front := questions[..|questions| - 1];
      assert front[..k] == questions[..k];
      PoolPrefix(docs, distance, front, k, n, where);
    } else {
      assert questions[..k] == questions;
    }
  }

  // ---------------------------------------------------------------------
  // The documents `add_qa` writes
  // ---------------------------------------------------------------------

  /** The id `add_qa` gives the `i`-th question of a call made when the
      collection holds `count` documents: `qa_{count}_{i}`. */
  function DocId(count: nat, i: nat): string
  {
    "qa_" + NatToDecimal(count) + "_" + NatToDecimal(i)
  }

  /** An id splits on `_` into the prefix and the two numbers. */
  lemma DocIdParts(count: nat, i: nat)
    ensures Split(DocId(count, i), '_') == ["qa", NatToDecimal(count), NatToDecimal(i)]
  {
    var c := NatToDecimal(count);
    var d := NatToDecimal(i);
    var parts := ["qa", c, d];
    assert parts[1..] == [c, d] && parts[1..][1..] == [d];
    assert Join([d], '_') == d;
    assert Join([c, d], '_') == c + ['_'] + d;
    assert Join(parts, '_') == "qa" + ['_'] + Join([c, d], '_');
    assert DocId(count, i) == "qa" + ['_'] + (c + ['_'] + d);
    assert '_' !in c by {
      assert forall k :: 0 <= k < |c| ==> IsDigit(c[k]);
    }
    assert '_' !in d by {
      assert forall k :: 0 <= k < |d| ==> IsDigit(d[k]);
    }
    SplitJoin(parts, '_');
  }

  /** Different counts or positions give different ids. */
  lemma DocIdInjective(c1: nat, i1: nat, c2: nat, i2: nat)
    requires DocId(c1, i1) == DocId(c2, i2)
    ensures c1 == c2 && i1 == i2
  {
    DocIdParts(c1, i1);
    DocIdParts(c2, i2);
    DecimalInjective(c1, c2);
    DecimalInjective(i1, i2);
  }

  /** The metadata `add_qa` stores with every document of a call: the
      caller's metadata (none counting as empty) with `answer` set to
      `str(answer)`, every other key kept. */
  function StoredMetadata(metadata: Option<Metadata>, answer: AnswerValue): (m: Metadata)
    ensures "answer" in m && m["answer"] == MStr(Str(answer))
    ensures forall k :: k != "answer" ==> (k in m <==> metadata.Some? && k in metadata.value)
    ensures forall k :: k != "answer" && k in m ==> m[k] == metadata.value[k]
  {
    (if metadata.Some? then metadata.value else map[])["answer" := MStr(Str(answer))]
  }

  /** The documents of one `add_qa` call made when the collection holds
      `count` documents. */
  function Batch(questions: seq<QuestionInput>, metadata: Metadata, count: nat): (b: seq<Document>)
    ensures |b| == |questions|
  {
    seq(|questions|, i requires 0 <= i < |questions| => Document(DocId(count, i), questions[i], metadata))
  }

  /** The ids of one batch are pairwise different. */
  lemma BatchIdsDistinct(questions: seq<QuestionInput>, metadata: Metadata, count: nat)
    ensures var b := Batch(questions, metadata, count);
      forall i, j :: 0 <= i < j < |b| ==> b[i].id != b[j].id
  {
    var b := Batch(questions, metadata, count);
    forall i, j | 0 <= i < j < |b| ensures b[i].id != b[j].id {
      if b[i].id == b[j].id {
        DocIdInjective(count, i, count, j);
      }
    }
  }

  /** Every id in the collection was issued by an `add_qa` call, as
      `qa_{c}_{i}` with `c + i` below the current count, and no two
      documents share an id. */
  ghost predicate IdsIssued(docs: seq<Document>) {
    && (forall k :: 0 <= k < |docs| ==> IssuedBefore(docs[k].id, |docs|))
    && (forall i, j :: 0 <= i < j < |docs| ==> docs[i].id != docs[j].id)
  }

  ghost predicate IssuedBefore(id: string, count: nat) {
    exists c: nat, i: nat :: c + i < count && id == DocId(c, i)
  }

  /** Appending the batch of an `add_qa` call keeps the ids issued and
      distinct: the new ids carry the current count, which no earlier id
      carries. */
  lemma BatchKeepsIdsIssued(docs: seq<Document>, questions: seq<QuestionInput>, metadata: Metadata)
    requires IdsIssued(docs)
    ensures IdsIssued(docs + Batch(questions, metadata, |docs|))
  {
    var b := Batch(questions, metadata, |docs|);
    var all := docs + b;
    forall k | 0 <= k < |all| ensures IssuedBefore(all[k].id, |all|) {
      if k < |docs| {
        assert all[k] == docs[k];
        var c: nat, i: nat :| c + i < |docs| && docs[k].id == DocId(c, i);
      } else {
        assert all[k].id == DocId(|docs|, k - |docs|);
      }
    }
    BatchIdsDistinct(questions, metadata, |docs|);
    forall i, j | 0 <= i < j < |all| ensures all[i].id != all[j].id {
      if j < |docs| {
        assert all[i] == docs[i] && all[j] == docs[j];
      } else if i < |docs| {
        assert all[j] == b[j - |docs|];
        var c: nat, m: nat :| c + m < |docs| && docs[i].id == DocId(c, m);
        if all[i].id == all[j].id {
          DocIdInjective(c, m, |docs|, j - |docs|);
        }
      } else {
        assert all[i] == b[i - |docs|] && all[j] == b[j - |docs|];
      }
    }
  }

  /** The metadata carries an answer, as text. */
  predicate TextAnswer(m: Metadata) {
    "answer" in m && m["answer"].MStr?
  }

  /** Every document carries an answer, as text: `add_qa` and
      `update_answer` both store `str(answer)`. */
  ghost predicate AnswersStored(docs: seq<Document>) {
    forall k :: 0 <= k < |docs| ==> TextAnswer(docs[k].metadata)
  }

  lemma BatchKeepsAnswersStored(docs: seq<Document>, questions: seq<QuestionInput>,
                                metadata: Option<Metadata>, answer: AnswerValue)
    requires AnswersStored(docs)
    ensures AnswersStored(docs + Batch(questions, StoredMetadata(metadata, answer), |docs|))
  {
    var all := docs + Batch(questions, StoredMetadata(metadata, answer), |docs|);
    assert forall k :: |docs| <= k < |all| ==> all[k].metadata == StoredMetadata(metadata, answer);
  }

  /** A store query only returns documents of the collection: the
      document a result was read from. */
  lemma StoreHitFrom(docs: seq<Document>, distance: (QuestionInput, QuestionInput) -> int,
                     text: QuestionInput, n: int, where: Option<Metadata>, i: nat) returns (k: nat)
    requires i < |StoreQuery(docs, distance, text, n, where)|
    ensures k < |docs| && StoreQuery(docs, distance, text, n, where)[i].metadata == docs[k].metadata
  {
    var c := Candidates(docs, where);
    var hs := HitsOf(c, distance, text);
    var r := StoreQuery(docs, distance, text, n, where);
    TopFrom(hs, Closeness, if n < 0 then 0 else n, r[i]);
    var j :| 0 <= j < |hs| && hs[j] == r[i];
    k := CandidateFrom(docs, where, j);
  }

  /** The document a candidate of the filter is. */
  lemma CandidateFrom(docs: seq<Document>, where: Option<Metadata>, j: nat) returns (k: nat)
    requires j < |Candidates(docs, where)|
    ensures k < |docs| && docs[k] == Candidates(docs, where)[j]
  {
    var c := Candidates(docs, where);
    assert c[j] in docs;
    k :| 0 <= k < |docs| && docs[k] == c[j];
  }

  /** On a collection whose documents all carry a text answer, every hit
      of a store query carries one. */
  lemma QueryHitsAnswered(docs: seq<Document>, distance: (QuestionInput, QuestionInput) -> int,
                          text: QuestionInput, n: int, where: Option<Metadata>)
    requires AnswersStored(docs)
    ensures forall i :: 0 <= i < |StoreQuery(docs, distance, text, n, where)| ==>
      TextAnswer(StoreQuery(docs, distance, text, n, where)[i].metadata)
  {
    forall i | 0 <= i < |StoreQuery(docs, distance, text, n, where)|
      ensures TextAnswer(StoreQuery(docs, distance, text, n, where)[i].metadata)
    {
      var k := StoreHitFrom(docs, distance, text, n, where, i);
      assert TextAnswer(docs[k].metadata);
    }
  }

  /** Hence every pooled hit carries one. */
  lemma {:induction false} PoolAnswered(docs: seq<Document>, distance: (QuestionInput, QuestionInput) -> int,
                                        questions: seq<QuestionInput>, n: int, where: Option<Metadata>)
    requires AnswersStored(docs)
    ensures forall i :: 0 <= i < |Pool(docs, distance, questions, n, where)| ==>
      TextAnswer(Pool(docs, distance, questions, n, where)[i].metadata)
  {
    if |questions| > 0 {
      var front := questions[..|questions| - 1];
      var a := Pool(docs, distance, front, n, where);
      var b := StoreQuery(docs, distance, questions[|questions| - 1], n, where);
      PoolAnswered(docs, distance, front, n, where);
      QueryHitsAnswered(docs, distance, questions[|questions| - 1], n, where);
      var ab: seq<StoreHit> := a + b;
      assert ab == Pool(docs, distance, questions, n, where);
      forall i | 0 <= i < |ab| ensures TextAnswer(ab[i].metadata) {
        if i >= |a| {
          assert ab[i] == b[i - |a|];
        } else {
          assert ab[i] == a[i];
        }
      }
    }
  }

  /** So `query` never raises on such a collection, and every answer it
      returns is text. */
  lemma QueryAnswered(docs: seq<Document>, distance: (QuestionInput, QuestionInput) -> int,
                      question: QuestionInput, n: int, filter: Option<Metadata>,
                      numRewordings: int, reply: string)
    requires AnswersStored(docs)
    ensures var q := QueryResult(docs, distance, question, n, filter, numRewordings, reply);
      q.Ok? && forall m :: 0 <= m < |q.value| ==> q.value[m].answer.MStr?
  {
    var questions := SelectQuestions(question, numRewordings, reply);
    var where := if filter.Some? && |filter.value| > 0 then filter else None;
    var p := Pool(docs, distance, questions, n, where);
    PoolAnswered(docs, distance, questions, n, where);
    assert forall i :: 0 <= i < |p| ==> "answer" in p[i].metadata;
    var hits := ShapeAll(p).value;
    MergeFacts(hits, n);
  }

  /** `collection.update` keeps the ids issued and distinct. */
  lemma UpdateKeepsIdsIssued(docs: seq<Document>, id: string, text: QuestionInput, metadata: Metadata)
    requires IdsIssued(docs)
    ensures IdsIssued(UpdateDoc(docs, id, text, metadata))
  {
  }

  // ---------------------------------------------------------------------
  // Generated QA pairs
  // ---------------------------------------------------------------------

  /** The check applied to each generated pair: an object with a "q" and
      an "a" member. */
  predicate IsQaPair(v: Json) {
    v.JObject? && HasKey(v.members, "q") && HasKey(v.members, "a")
  }

  /** `generate_qa_pairs` once the completion is parsed; `parsed` is None
      when the service fails or its reply is not JSON. Any failure gives
      the empty list. */
  function GenerateQaPairs(parsed: Option<Json>): (pairs: seq<Json>)
    ensures forall i :: 0 <= i < |pairs| ==> IsQaPair(pairs[i])
    ensures pairs != [] ==> parsed.Some? && GetJsonList(parsed.value) == Ok(pairs)
  {
    if parsed.None? then []
    else
      match GetJsonList(parsed.value)
      case Err(_) => []
      case Ok(list) => if forall i :: 0 <= i < |list| ==> IsQaPair(list[i]) then list else []
  }

  /** A list of well-formed pairs is returned as it is; one malformed pair
      discards them all. */
  lemma QaPairsAllOrNothing(parsed: Json)
    requires GetJsonList(parsed).Ok?
    ensures var list := GetJsonList(parsed).value;
      GenerateQaPairs(Some(parsed)) == if forall i :: 0 <= i < |list| ==> IsQaPair(list[i]) then list else []
  {
  }

  /** A reply holding one pair object instead of a list of them is
      accepted as a list of that one pair. */
  lemma SinglePairAccepted(parsed: Json)
    requires IsQaPair(parsed) && !parsed.members[0].1.JArray?
    ensures GenerateQaPairs(Some(parsed)) == [parsed]
  {
  }

  // ---------------------------------------------------------------------
  // Updates and the tree-question operations
  // ---------------------------------------------------------------------

  /** The query that stands for a store lookup of one document: the
      candidate nearest to the text, when there is a candidate. */
  lemma NearestOne(docs: seq<Document>, distance: (QuestionInput, QuestionInput) -> int,
                   text: QuestionInput, where: Option<Metadata>)
    ensures var c := Candidates(docs, where); var r := StoreQuery(docs, distance, text, 1, where);
      && |r| == (if |c| == 0 then 0 else 1)
      && (|c| > 0 ==> exists k :: (0 <= k < |c| && r[0] == HitsOf(c, distance, text)[k]
            && forall j :: 0 <= j < |c| ==> distance(text, c[k].text) <= distance(text, c[j].text)))
  {
    var c := Candidates(docs, where);
    var hs := HitsOf(c, distance, text);
    var r := StoreQuery(docs, distance, text, 1, where);
    TopByKey(hs, Closeness, 1);
    if |c| > 0 {
      assert r[0] in multiset(hs);
      var k :| 0 <= k < |hs| && hs[k] == r[0];
      forall j | 0 <= j < |c| ensures distance(text, c[k].text) <= distance(text, c[j].text) {
        if hs[j] != r[0] {
          assert hs[j] !in r;
          TopKeepsBetter(hs, Closeness, 1, hs[j]);
        }
      }
    }
  }

  /** `collection.update` of one id: the document with that id gets the new
      text and metadata. */
  function UpdateDoc(docs: seq<Document>, id: string, text: QuestionInput, metadata: Metadata): (r: seq<Document>)
    ensures |r| == |docs|
    ensures forall i :: 0 <= i < |docs| ==> r[i].id == docs[i].id
    ensures forall i :: 0 <= i < |docs| && docs[i].id != id ==> r[i] == docs[i]
    ensures forall i :: 0 <= i < |docs| && docs[i].id == id ==> r[i].text == text && r[i].metadata == metadata
  {
    seq(|docs|, i requires 0 <= i < |docs| =>
      if docs[i].id == id then Document(id, text, metadata) else docs[i])
  }

  /** `update_answer`: the document nearest to `question` gets `question`
      as its text and `str(newAnswer)` as its answer, its other metadata
      kept; an empty store raises. */
  function AnswerUpdate(docs: seq<Document>, distance: (QuestionInput, QuestionInput) -> int,
                        question: QuestionInput, newAnswer: AnswerValue): (r: Result<seq<Document>, KbError>)
    ensures r.Err? <==> docs == []
    ensures r.Err? ==> r == Err(QuestionNotFound)
    ensures r.Ok? ==> |r.value| == |docs| && forall i :: 0 <= i < |docs| ==> r.value[i].id == docs[i].id
  {
    var nearest := StoreQuery(docs, distance, question, 1, None);
    if |nearest| == 0 then Err(QuestionNotFound)
    else Ok(UpdateDoc(docs, nearest[0].id, question, nearest[0].metadata["answer" := MStr(Str(newAnswer))]))
  }

  /** `update_answer` fails exactly on an empty store; otherwise it
      rewrites the document nearest to the question, and every document
      sharing that document's id. */
  lemma AnswerUpdateNearest(docs: seq<Document>, distance: (QuestionInput, QuestionInput) -> int,
                            question: QuestionInput, newAnswer: AnswerValue)
    ensures AnswerUpdate(docs, distance, question, newAnswer).Err? <==> docs == []
    ensures docs != [] ==> exists k :: (0 <= k < |docs|
      && (forall j :: 0 <= j < |docs| ==> distance(question, docs[k].text) <= distance(question, docs[j].text))
      && AnswerUpdate(docs, distance, question, newAnswer)
         == Ok(UpdateDoc(docs, docs[k].id, question, docs[k].metadata["answer" := MStr(Str(newAnswer))])))
  {
    NearestOne(docs, distance, question, None);
  }

  /** The metadata `add_tree_question` gives its document. */
  function TreeTag(treeId: int): Metadata {
    map["tree_id" := MInt(treeId), "from_tree" := MBool(true)]
  }

  /** The filters of `get_tree_questions` and `update_tree_question`. */
  function FromTreeFilter(): Metadata { map["from_tree" := MBool(true)] }

  function TreeIdFilter(treeId: int): Metadata { map["tree_id" := MInt(treeId)] }

  /** `get_tree_questions`: a query for the empty text over the documents
      from the tree, with room for every document. */
  function TreeQuestions(docs: seq<Document>, distance: (QuestionInput, QuestionInput) -> int)
    : (r: Result<seq<Hit>, KbError>)
    ensures r.Err? ==> r == Err(MissingAnswer)
    ensures r.Ok? ==> DistinctKeys(r.value, AnswerOf) && NonIncreasing(r.value, SimilarityOf)
  {
    QueryResult(docs, distance, Single(""), |docs|, Some(FromTreeFilter()), 0, "")
  }

  /** `update_tree_question`: looks up the document tagged with the tree
      id that is nearest to the empty text, and updates the answer of the
      document nearest to that document's question. No tagged document:
      nothing happens. */
  function TreeQuestionUpdate(docs: seq<Document>, distance: (QuestionInput, QuestionInput) -> int,
                              treeId: int, answer: string): (r: Result<seq<Document>, KbError>)
    ensures r.Ok? ==> |r.value| == |docs| && forall i :: 0 <= i < |docs| ==> r.value[i].id == docs[i].id
  {
    match QueryResult(docs, distance, Single(""), 1, Some(TreeIdFilter(treeId)), 0, "")
    case Err(e) => Err(e)
    case Ok(results) =>
      if |results| == 0 then Ok(docs)
      else AnswerUpdate(docs, distance, results[0].question, AText(answer))
  }

  /** A query with rewordings off sends the one text, with the filter. */
  lemma OneQueryPool(docs: seq<Document>, distance: (QuestionInput, QuestionInput) -> int,
                     text: QuestionInput, n: int, filter: Metadata)
    requires |filter| > 0
    ensures QueryResult(docs, distance, text, n, Some(filter), 0, "")
      == match ShapeAll(StoreQuery(docs, distance, text, n, Some(filter)))
         case Err(e) => Err(e)
         case Ok(hits) => Ok(MergeResults(hits, n))
  {
    var qs := SelectQuestions(text, 0, "");
    assert qs == [text];
    assert qs[..0] == [];
    assert Pool(docs, distance, qs, n, Some(filter)) == StoreQuery(docs, distance, text, n, Some(filter));
  }

  /** Shaping a single hit that has an answer. */
  lemma ShapeOne(h: StoreHit)
    requires "answer" in h.metadata
    ensures ShapeAll([h]) == Ok([ShapeHit(h).value])
  {
    var e: seq<StoreHit> := [];
    var one := [h];
    assert one[..|one| - 1] == e && one[|one| - 1] == h;
    assert ShapeAll(e) == Ok([]);
    var x := ShapeHit(h).value;
    var none: seq<Hit> := [];
    assert none + [x] == [x];
  }

  /** Merging a single result keeps it. */
  lemma MergeOne(x: Hit)
    ensures MergeResults([x], 1) == [x]
  {
    var e: seq<Hit> := [];
    assert [x][..0] == e;
    assert DedupBy(e, AnswerOf) == e;
    assert KeysOf(e, AnswerOf) == {};
    assert DedupBy([x], AnswerOf) == [x];
    assert SortDesc(e, SimilarityOf) == e;
    assert SortDesc([x], SimilarityOf) == InsertDesc(x, e, SimilarityOf) == [x];
  }

  /** Without a document tagged with the tree id, `update_tree_question`
      changes nothing. */
  lemma UntaggedTreeQuestion(docs: seq<Document>, distance: (QuestionInput, QuestionInput) -> int,
                             treeId: int, answer: string)
    requires forall k :: 0 <= k < |docs| ==> !Matches(docs[k].metadata, TreeIdFilter(treeId))
    ensures TreeQuestionUpdate(docs, distance, treeId, answer) == Ok(docs)
  {
    var w := TreeIdFilter(treeId);
    assert "tree_id" in w;
    OneQueryPool(docs, distance, Single(""), 1, w);
    var c := Candidates(docs, Some(w));
    assert |c| == 0;
    NearestOne(docs, distance, Single(""), Some(w));
    var h: seq<Hit> := [];
    assert DedupBy(h, AnswerOf) == [];
  }

  /** With a document tagged with the tree id, `update_tree_question`
      updates the answer as `update_answer` does for the question of one
      such document, the one nearest to the empty text, unless that
      document has no answer to read. */
  lemma TaggedTreeQuestion(docs: seq<Document>, distance: (QuestionInput, QuestionInput) -> int,
                           treeId: int, answer: string, t: nat)
    requires t < |docs| && Matches(docs[t].metadata, TreeIdFilter(treeId))
    ensures var r := TreeQuestionUpdate(docs, distance, treeId, answer);
      || r == Err(MissingAnswer)
      || (exists k :: 0 <= k < |docs| && NearestTagged(docs, distance, TreeIdFilter(treeId), k)
                     && r == AnswerUpdate(docs, distance, docs[k].text, AText(answer)))
  {
    var k := TreeLookup(docs, distance, treeId, t);
  }

  /** The lookup of `update_tree_question`: either the nearest tagged
      document has no answer, or the single result is its question. */
  lemma TreeLookup(docs: seq<Document>, distance: (QuestionInput, QuestionInput) -> int,
                   treeId: int, t: nat) returns (k: nat)
    requires t < |docs| && Matches(docs[t].metadata, TreeIdFilter(treeId))
    ensures var q := QueryResult(docs, distance, Single(""), 1, Some(TreeIdFilter(treeId)), 0, "");
      || q == Err(MissingAnswer)
      || (k < |docs| && NearestTagged(docs, distance, TreeIdFilter(treeId), k)
          && q.Ok? && |q.value| == 1 && q.value[0].question == docs[k].text)
  {
    var w := TreeIdFilter(treeId);
    var c := Candidates(docs, Some(w));
    assert docs[t] in c;
    NearestOne(docs, distance, Single(""), Some(w));
    var r := StoreQuery(docs, distance, Single(""), 1, Some(w));
    var j :| 0 <= j < |c| && r[0] == HitsOf(c, distance, Single(""))[j]
             && forall i :: 0 <= i < |c| ==> distance(Single(""), c[j].text) <= distance(Single(""), c[i].text);
    QueryOneHit(docs, distance, Single(""), w);
    k := NearestIsTagged(docs, distance, w, c, j);
  }

  /** A query for one result with rewordings off: no hit, a hit without an
      answer, or the one shaped hit. */
  lemma QueryOneHit(docs: seq<Document>, distance: (QuestionInput, QuestionInput) -> int,
                    text: QuestionInput, filter: Metadata)
    requires |filter| > 0
    ensures var r := StoreQuery(docs, distance, text, 1, Some(filter));
      var q := QueryResult(docs, distance, text, 1, Some(filter), 0, "");
      && |r| <= 1
      && (|r| == 0 ==> q == Ok([]))
      && (|r| == 1 && "answer" !in r[0].metadata ==> q == Err(MissingAnswer))
      && (|r| == 1 && "answer" in r[0].metadata ==> q == Ok([ShapeHit(r[0]).value]))
  {
    OneQueryPool(docs, distance, text, 1, filter);
    var r := StoreQuery(docs, distance, text, 1, Some(filter));
    if |r| == 0 {
      var h: seq<Hit> := [];
      assert DedupBy(h, AnswerOf) == [];
    } else if "answer" in r[0].metadata {
      assert r == [r[0]];
      ShapeOne(r[0]);
      MergeOne(ShapeHit(r[0]).value);
    } else {
      assert r == [r[0]];
    }
  }

  /** Document `k` passes the filter and no document that passes is nearer
      to the empty text. */
  ghost predicate NearestTagged(docs: seq<Document>, distance: (QuestionInput, QuestionInput) -> int,
                                where: Metadata, k: nat)
    requires k < |docs|
  {
    && Matches(docs[k].metadata, where)
    && forall j :: 0 <= j < |docs| && Matches(docs[j].metadata, where) ==>
         distance(Single(""), docs[k].text) <= distance(Single(""), docs[j].text)
  }

  lemma NearestIsTagged(docs: seq<Document>, distance: (QuestionInput, QuestionInput) -> int,
                        where: Metadata, c: seq<Document>, k: nat) returns (d: nat)
    requires c == Candidates(docs, Some(where)) && k < |c|
    requires forall j :: 0 <= j < |c| ==> distance(Single(""), c[k].text) <= distance(Single(""), c[j].text)
    ensures d < |docs| && docs[d] == c[k] && NearestTagged(docs, distance, where, d)
  {
    d :| 0 <= d < |docs| && docs[d] == c[k];
    forall j | 0 <= j < |docs| && Matches(docs[j].metadata, where)
      ensures distance(Single(""), docs[d].text) <= distance(Single(""), docs[j].text)
    {
      assert docs[j] in c;
      var cj :| 0 <= cj < |c| && c[cj] == docs[j];
    }
  }

  /** With room for every candidate, the query for the tree questions
      returns all of them, in some order. */
  lemma TreePool(docs: seq<Document>, distance: (QuestionInput, QuestionInput) -> int)
    ensures var c := Candidates(docs, Some(FromTreeFilter()));
      multiset(StoreQuery(docs, distance, Single(""), |docs|, Some(FromTreeFilter())))
      == multiset(HitsOf(c, distance, Single("")))
  {
    var c := Candidates(docs, Some(FromTreeFilter()));
    SortDescWhole(HitsOf(c, distance, Single("")), Closeness, |docs|);
  }

  /** The shaped hits of the tree-question query, when none fails. */
  lemma TreeShaped(docs: seq<Document>, distance: (QuestionInput, QuestionInput) -> int)
    returns (pooled: seq<StoreHit>)
    ensures pooled == StoreQuery(docs, distance, Single(""), |docs|, Some(FromTreeFilter()))
    ensures TreeQuestions(docs, distance) == match ShapeAll(pooled)
      case Err(e) => Err(e)
      case Ok(hits) => Ok(MergeResults(hits, |docs|))
    ensures |pooled| <= |docs|
    ensures PooledFrom(docs, pooled)
  {
    var w := FromTreeFilter();
    assert "from_tree" in w;
    OneQueryPool(docs, distance, Single(""), |docs|, w);
    TreePool(docs, distance);
    pooled := StoreQuery(docs, distance, Single(""), |docs|, Some(w));
    var c := Candidates(docs, Some(w));
    PooledFromDocs(docs, c, HitsOf(c, distance, Single("")), pooled);
  }

  /** `get_tree_questions` fails exactly when a document from the tree has
      no answer. */
  lemma TreeQuestionsFail(docs: seq<Document>, distance: (QuestionInput, QuestionInput) -> int)
    ensures TreeQuestions(docs, distance).Err? <==>
      exists k :: 0 <= k < |docs| && Matches(docs[k].metadata, FromTreeFilter()) && "answer" !in docs[k].metadata
  {
    var pooled := TreeShaped(docs, distance);
  }

  /** Otherwise it gives one result per distinct answer among the
      documents from the tree, and only such documents. */
  lemma TreeQuestionsFacts(docs: seq<Document>, distance: (QuestionInput, QuestionInput) -> int)
    requires TreeQuestions(docs, distance).Ok?
    ensures var r := TreeQuestions(docs, distance).value;
      && DistinctKeys(r, AnswerOf)
      && (forall m :: 0 <= m < |r| ==> FromSomeDoc(r[m], docs))
      && (forall k :: 0 <= k < |docs| && Matches(docs[k].metadata, FromTreeFilter()) ==>
            "answer" in docs[k].metadata && docs[k].metadata["answer"] in KeysOf(r, AnswerOf))
  {
    var pooled := TreeShaped(docs, distance);
    var shaped := ShapeAll(pooled).value;
    ShapedFromDocs(docs, pooled, shaped);
    MergeWhole(shaped, |docs|);
  }

  /** With room for every hit, the merge keeps one hit per answer, each
      taken from the pool. */
  lemma MergeWhole(hits: seq<Hit>, n: int)
    requires n >= |hits|
    ensures var r := MergeResults(hits, n);
      && DistinctKeys(r, AnswerOf)
      && KeysOf(r, AnswerOf) == KeysOf(hits, AnswerOf)
      && forall m :: 0 <= m < |r| ==> r[m] in hits
  {
    var r := MergeResults(hits, n);
    MergeFacts(hits, n);
    DedupDistinct(hits, AnswerOf);
    DedupShorter(hits, AnswerOf);
    MergeKeepsEveryAnswer(hits, n);
  }

  /** A result read from a document from the tree: its question, its
      answer and its metadata without the answer. */
  ghost predicate FromDoc(h: Hit, d: Document) {
    && Matches(d.metadata, FromTreeFilter())
    && "answer" in d.metadata
    && h.question == d.text
    && h.answer == d.metadata["answer"]
    && h.metadata == d.metadata - {"answer"}
  }

  ghost predicate FromSomeDoc(h: Hit, docs: seq<Document>) {
    exists k :: 0 <= k < |docs| && FromDoc(h, docs[k])
  }

  /** The hit is a document from the tree. */
  ghost predicate HitOfTreeDoc(docs: seq<Document>, h: StoreHit) {
    exists k :: 0 <= k < |docs| && Matches(docs[k].metadata, FromTreeFilter())
                && h.metadata == docs[k].metadata && h.document == docs[k].text
  }

  /** Some hit carries the document's metadata. */
  ghost predicate DocAmongHits(pooled: seq<StoreHit>, d: Document) {
    exists i :: 0 <= i < |pooled| && pooled[i].metadata == d.metadata
  }

  /** Each pooled hit is a document from the tree, and each document from
      the tree is pooled. */
  ghost predicate PooledFrom(docs: seq<Document>, pooled: seq<StoreHit>) {
    && (forall i :: 0 <= i < |pooled| ==> HitOfTreeDoc(docs, pooled[i]))
    && (forall k :: 0 <= k < |docs| && Matches(docs[k].metadata, FromTreeFilter()) ==> DocAmongHits(pooled, docs[k]))
  }

  /** Shaping pooled documents from the tree: each result comes from such
      a document and each such document's answer is among the results. */
  lemma ShapedFromDocs(docs: seq<Document>, pooled: seq<StoreHit>, shaped: seq<Hit>)
    requires PooledFrom(docs, pooled)
    requires |shaped| == |pooled| && forall i :: 0 <= i < |pooled| ==> ShapeHit(pooled[i]) == Ok(shaped[i])
    ensures forall i :: 0 <= i < |shaped| ==> FromSomeDoc(shaped[i], docs)
    ensures forall k :: 0 <= k < |docs| && Matches(docs[k].metadata, FromTreeFilter()) ==>
      "answer" in docs[k].metadata && docs[k].metadata["answer"] in KeysOf(shaped, AnswerOf)
  {
    forall i | 0 <= i < |shaped| ensures FromSomeDoc(shaped[i], docs) {
      assert HitOfTreeDoc(docs, pooled[i]);
      var k :| 0 <= k < |docs| && Matches(docs[k].metadata, FromTreeFilter())
               && pooled[i].metadata == docs[k].metadata && pooled[i].document == docs[k].text;
      assert FromDoc(shaped[i], docs[k]);
    }
    forall k | 0 <= k < |docs| && Matches(docs[k].metadata, FromTreeFilter())
      ensures "answer" in docs[k].metadata && docs[k].metadata["answer"] in KeysOf(shaped, AnswerOf)
    {
      assert DocAmongHits(pooled, docs[k]);
      var i :| 0 <= i < |pooled| && pooled[i].metadata == docs[k].metadata;
      assert AnswerOf(shaped[i]) in KeysOf(shaped, AnswerOf);
    }
  }

  /** The pooled hits of a query with room for everything are the
      candidates, each once, in some order. */
  lemma PooledFromDocs(docs: seq<Document>, c: seq<Document>, hs: seq<StoreHit>, pooled: seq<StoreHit>)
    requires |hs| == |c| && multiset(pooled) == multiset(hs)
    requires forall i :: 0 <= i < |c| ==> hs[i].document == c[i].text && hs[i].metadata == c[i].metadata
    requires forall i :: 0 <= i < |c| ==> c[i] in docs && Matches(c[i].metadata, FromTreeFilter())
    requires forall k :: 0 <= k < |docs| && Matches(docs[k].metadata, FromTreeFilter()) ==> docs[k] in c
    ensures PooledFrom(docs, pooled)
  {
    forall i | 0 <= i < |pooled| ensures HitOfTreeDoc(docs, pooled[i]) {
      assert pooled[i] in multiset(hs);
      var j :| 0 <= j < |hs| && hs[j] == pooled[i];
      var k :| 0 <= k < |docs| && docs[k] == c[j];
      assert pooled[i].metadata == docs[k].metadata && pooled[i].document == docs[k].text;
    }
    forall k | 0 <= k < |docs| && Matches(docs[k].metadata, FromTreeFilter())
      ensures DocAmongHits(pooled, docs[k])
    {
      var j :| 0 <= j < |c| && c[j] == docs[k];
      assert hs[j] in multiset(pooled);
      var i :| 0 <= i < |pooled| && pooled[i] == hs[j];
    }
  }
}
