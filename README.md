# qa_store in Dafny

A model of the core of `qa_store`, a question-answering store that keeps two
views of the same questions:

- a **question tree** in SQLite (`QuestionAnswerTree`): rows with a question,
  an optional answer, optional metadata and an optional parent id; the tree
  built from them, with each node's priority being the number of leaves
  below it; the ranking that picks the most important questions; cascading
  deletes; and the detection of duplicate question texts;
- a **knowledge base** in a vector store (`QuestionAnswerKB`): documents
  holding a question text and a metadata map with a string `answer`; `add_qa`
  with its id scheme `qa_{count}_{i}`; `query`, which fans out over
  rewordings, shapes the hits, keeps the first hit per answer, sorts by
  similarity and truncates; `update_answer`; and the tree-question
  operations that tag documents with `tree_id`/`from_tree`;
- the **system** (`QuestionAnswerSystem`) that mirrors every new question
  and answer from the tree into the KB, synchronises the two in both
  directions, and suggests the next question to ask.

`get_json_list` from `helpers.py` is modelled too, on a parsed JSON value.

The layout follows the Python modules:

| file | module | models |
|---|---|---|
| `qa_tree_table.dfy` | `QaTreeTable` | the `questions` table and the views read from it |
| `qa_tree_nodes.dfy` | `QaTreeNodes` | `QuestionNode`, the built tree, priorities, flattening, ranking |
| `qa_tree.dfy` | `QaTree` | the class `QuestionAnswerTree` with its `rows` and `root` fields |
| `qa_kb_records.dfy` | `QaKbRecords` | documents, hits, the store's query, shaping, merging, ids, rewordings, QA pairs |
| `qa_kb.dfy` | `QaKb` | the class `QuestionAnswerKB` with its `docs` field and the loops of `add_qa` and `query` |
| `qa_system.dfy` | `QaSystem` | the class `QuestionAnswerSystem`, both synchronisation passes and the suggester |
| `helpers.dfy` | `Helpers` | `get_json_list` |
| `sequences.dfy`, `text.dfy`, `wrappers.dfy` | `Sequences`, `Text`, `Wrappers` | Python's slicing, stable descending sort, first-wins de-duplication, `strip`/`split`/`join`, decimal numerals, `Option`/`Result` |

How the outside world appears in the model:

- The SQLite table is a `seq<Row>` in rowid order. A query without
  `ORDER BY` scans in that order, and `get_children`, `_get_all_descendants`,
  `find_duplicate_questions` and both answer scans depend on it. The map from
  id to row is the view `GetQuestion`. A new row's id is one above the
  largest id, or 1 in an empty table (an `INTEGER PRIMARY KEY` without
  `AUTOINCREMENT`).
- The vector store is the KB's list of documents plus a function `distance`
  between texts, which stands in for the embedding model. A store query
  returns the `n` documents that pass the `where` filter and are nearest to
  the text, nearest first, with ties in insertion order.
- The completion service is the text of its reply, passed in as `reply`. For
  `generate_qa_pairs` it is the parsed reply, or `None` when the call or the
  parsing fails.
- Similarities and distances are integers: `similarity = 1 - distance` is
  kept exactly, but not its floating point.
- Python's `str(answer)` is `QaKbRecords.Str`. The text that SQLite's TEXT
  column holds for a metadata value is `QaSystem.AnswerText`.
- Every method that raises in Python returns a `Result` here. The errors are
  `KbError.MissingAnswer` (the `KeyError` of `metadata["answer"]`),
  `KbError.QuestionNotFound` (`update_answer` on an empty store),
  `TreeError.NoRoot` (`_flatten_tree(None)`), the `SyncError` cases for
  `q["metadata"]["tree_id"]`, and the `JsonListError` cases of
  `get_json_list`.

Invariants the classes keep:

- `QaTreeTable.WellFormed`: ids are positive and ascending, and a parent id
  is smaller than the id of the row that names it. This is what makes the
  recursive walks terminate.
- `QaKbRecords.IdsIssued`: every document id is some `qa_{c}_{i}` with
  `c + i` below the document count, and no two documents share an id.
- `QaKbRecords.AnswersStored`: every document carries its answer as text.
- `QaSystem.TreeDocsTagged`: every document from the tree carries an integer
  `tree_id`.

Facts about the code that the model keeps:

- A node's priority is the number of leaves below it
  (`_calculate_subtree_priority`); a leaf has priority 1. The ranking sorts
  with Python's stable sort, so nodes of equal priority stay in preorder.
- `update_answer` on an id with no row changes nothing and raises nothing.
- `add_question` does not check the parent id. The model's precondition asks
  for a parent id below the next id; see "Left out".
- `generate_qa_pairs` makes a single completion call and returns an empty
  list when that call fails, when its reply does not parse, or when a pair
  lacks `q` or `a`.
- `get_json_list` on an object whose first value is not a list returns the
  object wrapped in a list; its docstring (`helpers.py:40-42`) speaks of a
  `ValueError`, which the code does not raise.
- A synchronisation pass stops at the first entry that fails. The updates
  before it stay, because each one is committed on its own.
- The rewordings are the service's lines as they are; their number is not
  compared with `num_rewordings`. An empty reply gives one empty entry.

## Model

| member | source | states |
|---|---|---|
| QaTreeTable.NextId | src/qa_store/qa_tree.py:54-62 | the id `lastrowid` reports for a new row is at least 1 and above every id in the table |
| QaTreeTable.GetQuestion | src/qa_store/qa_tree.py:73-86 | a row is found exactly when some row has that id, and the row found is a row of the table with that id |
| QaTreeTable.GetQuestionIsTheRow | src/qa_store/qa_tree.py:73-86 | in a well-formed table, looking up a row's id finds that very row |
| QaTreeTable.IsAnswered | src/qa_store/qa_tree.py:206-208 | true exactly when a row with that id exists and its answer is not NULL, so an unknown id counts as unanswered |
| QaTreeTable.AnsweredRows | src/qa_store/qa_tree.py:219-232 | the result holds exactly the rows whose answer is set |
| QaTreeTable.UnansweredRows | src/qa_store/qa_tree.py:210-217 | the result holds exactly the rows whose answer is NULL, read back without metadata |
| QaTreeTable.ScansPartition | src/qa_store/qa_tree.py:210-232 | the two scans together have as many rows as the table, their ids together are the table's ids, and no id is in both |
| QaTreeTable.ChildrenOf | src/qa_store/qa_tree.py:88-101 | the children are exactly the rows whose parent id is the given id |
| QaTreeTable.SetAnswer | src/qa_store/qa_tree.py:64-71 | the `UPDATE` keeps the number of rows |
| QaTreeTable.SetAnswerLookup | src/qa_store/qa_tree.py:64-71 | after `update_answer`, the updated id reads back with the new answer and its other columns unchanged, every other id reads back as before, and an unknown id still finds nothing |
| QaTreeTable.SetAnswerKeepsColumns | src/qa_store/qa_tree.py:64-71 | every row keeps all its columns except the answer |
| QaTreeTable.SetAnswerWellFormed | src/qa_store/qa_tree.py:64-71 | updating an answer keeps the table well formed |
| QaTreeTable.SetAnswerUnknownId | src/qa_store/qa_tree.py:64-71 | an update of an id with no row leaves the table as it was, without an error |
| QaTreeTable.GetQuestionAppend | src/qa_store/qa_tree.py:46-62 | after an insert, the new id finds the new row, every older id finds what it found before, and any other id finds nothing |
| QaTreeTable.LookupMember | src/qa_store/qa_tree.py:73-86 | every row of a well-formed table is found by its own id |
| QaTreeTable.DescendantIds | src/qa_store/qa_tree.py:188-204 | every id `_get_all_descendants` returns is greater than the node's id and names a row |
| QaTreeTable.DescendantIdsExactly | src/qa_store/qa_tree.py:188-204 | an id is returned exactly when following parent ids up from its row reaches the node |
| QaTreeTable.DescendantIdsDistinct | src/qa_store/qa_tree.py:188-204 | no id is returned twice |
| QaTreeTable.DescendantsAreBelow | src/qa_store/qa_tree.py:195-204 | everything returned lies below the node |
| QaTreeTable.BelowAreDescendants | src/qa_store/qa_tree.py:195-204 | everything below the node is returned |
| QaTreeTable.DescendantsNest | src/qa_store/qa_tree.py:199-202 | the descendants of a descendant are descendants |
| QaTreeTable.SiblingsDisjoint | src/qa_store/qa_tree.py:199-202 | two different children of one node have no common descendant, so the recursion visits no row twice |
| QaTreeTable.AncestorSmaller | src/qa_store/qa_tree.py:46-62 | an ancestor's id is smaller than its descendant's, so the walk up the parent ids is finite |
| QaTreeTable.AncestorTransitive | src/qa_store/qa_tree.py:188-204 | an ancestor of an ancestor is an ancestor |
| QaTreeTable.DeleteIds | src/qa_store/qa_tree.py:174-176 | `executemany` of the `DELETE` keeps exactly the rows whose id is not listed, and keeps the table well formed |
| QaTreeTable.CascadeDeleted | src/qa_store/qa_tree.py:159-186 | the table left by a cascade delete is well formed |
| QaTreeTable.CascadeDeleteRemovesSubtree | src/qa_store/qa_tree.py:159-186 | a row survives exactly when it is neither the node nor below it, and no surviving row loses a parent that existed before |
| QaTreeTable.CascadeDeletedRow | src/qa_store/qa_tree.py:166-176 | a row survives exactly when it is neither the node nor below it |
| QaTreeTable.CascadeDeleteKeepsParent | src/qa_store/qa_tree.py:166-176 | the parent of a surviving row survives, if it existed |
| QaTreeTable.IdsWithQuestion | src/qa_store/qa_tree.py:133-138 | the ids listed for a text are exactly the ids of the rows holding that text |
| QaTreeTable.GroupConcatParses | src/qa_store/qa_tree.py:140-142 | splitting a `GROUP_CONCAT` of ids on commas gives one all-digit piece per id, and `int()` of each piece is that id |
| QaTreeTable.DuplicateGroupsExactly | src/qa_store/qa_tree.py:133-138 | the query gives one group per text held by two or more rows, with a different text in each group, and each group carries the concatenation of that text's ids |
| QaTreeTable.DuplicateQuestions | src/qa_store/qa_tree.py:132-143 | every question text in the dictionary maps to at least two ids, each the id of a row |
| QaTreeTable.DuplicateQuestionsExactly | src/qa_store/qa_tree.py:132-143 | a text is a key exactly when two rows hold it, and it maps to the ids of all rows holding it, each once |
| QaTreeTable.ManyIdsIffTwoRows | src/qa_store/qa_tree.py:137 | `HAVING COUNT(*) > 1` holds exactly when two different rows hold the text |
| QaTreeTable.IdsWithQuestionIncreasing | src/qa_store/qa_tree.py:133-138 | the ids of a group come in increasing order |
| QaTreeNodes.SubtreeAt | src/qa_store/qa_tree.py:109-115 | the node built for a row carries that row and priority 0, and its children carry the rows `get_children` returns, in that order |
| QaTreeNodes.SubtreeChildren | src/qa_store/qa_tree.py:112-114 | each child of a built node is the subtree built at the matching child row |
| QaTreeNodes.BuildSubtree | src/qa_store/qa_tree.py:109-115 | `_build_subtree(id)` gives a node exactly when a row has that id, and the node carries that id |
| QaTreeNodes.FirstRoot | src/qa_store/qa_tree.py:104-105 | the root row is the first parentless row in table order, and none is found only when every row has a parent |
| QaTreeNodes.Flatten | src/qa_store/qa_tree.py:153-157 | the flattening starts with the node itself |
| QaTreeNodes.FlattenAllSnoc | src/qa_store/qa_tree.py:155-156 | flattening one more child appends that child's flattening |
| QaTreeNodes.IdsOfConcat | src/qa_store/qa_tree.py:153-157 | the ids of two lists of nodes put together are the ids of each list put together |
| QaTreeNodes.SubtreePreorder | src/qa_store/qa_tree.py:109-157 | flattening the tree built at a row gives the row's id followed by exactly the ids `_get_all_descendants` returns, in the same order |
| QaTreeNodes.SubtreeIdsDistinct | src/qa_store/qa_tree.py:109-157 | the flattening of a built tree names each row once |
| QaTreeNodes.SubtreeRowsIn | src/qa_store/qa_tree.py:109-115 | every node of a built tree carries a row of the table |
| QaTreeNodes.InFlattenAll | src/qa_store/qa_tree.py:155-156 | a node in the flattening of several trees is in the flattening of one of them |
| QaTreeNodes.Prioritized | src/qa_store/qa_tree.py:121-130 | computing priorities keeps the node's row and its number of children |
| QaTreeNodes.PriorityIsLeafCount | src/qa_store/qa_tree.py:121-130 | the priority given to a node is the number of leaves below it |
| QaTreeNodes.PrioritiesSumLeafCounts | src/qa_store/qa_tree.py:126-129 | the sum of the children's priorities is the number of leaves in their flattening |
| QaTreeNodes.PrioritizedCountsLeaves | src/qa_store/qa_tree.py:117-130 | after `calculate_priorities` every node of the tree has as priority the number of leaves below it |
| QaTreeNodes.LeafCountPositive | src/qa_store/qa_tree.py:122-124 | every subtree has a leaf, so every computed priority is at least 1 |
| QaTreeNodes.ChildPriorityBounded | src/qa_store/qa_tree.py:126-129 | a child's priority is at least 1 and at most its parent's |
| QaTreeNodes.ChildLeavesWithin | src/qa_store/qa_tree.py:126-129 | one child's leaves are among the leaves of all the children |
| QaTreeNodes.PrioritizedKeepsShape | src/qa_store/qa_tree.py:121-130 | computing priorities changes neither the preorder of ids nor the number of leaves |
| QaTreeNodes.PrioritizedKeepsRows | src/qa_store/qa_tree.py:121-130 | computing priorities changes no row of the preorder |
| QaTreeNodes.PrioritizedIdempotent | src/qa_store/qa_tree.py:117-130 | computing priorities twice gives what computing them once gives |
| QaTreeNodes.FlattenedSubtrees | src/qa_store/qa_tree.py:153-157 | every node in the flattening of a tree with computed priorities has computed priorities below it |
| Sequences.SortDescFacts | src/qa_store/qa_tree.py:151 | `sorted(key, reverse=True)` gives a permutation in non-increasing key order that keeps the items of each key in their original order |
| Sequences.SortDescStable | src/qa_store/qa_kb.py:338-342 | two sorted items with equal keys come in the order they had before sorting |
| Sequences.DedupDistinct | src/qa_store/qa_kb.py:331-336 | the de-duplication keeps one item per key, and every key of the input |
| Sequences.DedupKeepsFirst | src/qa_store/qa_kb.py:331-336 | each kept item is the first with its key, and kept items come in the order their keys first appear |
| Text.StripIdempotent | src/qa_store/qa_kb.py:203-205 | stripping a stripped text changes nothing |
| Text.SplitJoin | src/qa_store/qa_kb.py:203 | splitting on a separator that no piece contains gives the pieces back |
| Text.JoinSplit | src/qa_store/qa_kb.py:203 | joining the pieces of a split with the same separator gives the text back |
| Text.DecimalRoundTrip | src/qa_store/qa_tree.py:142 | `int()` of the decimal numeral of a natural number is that number |
| QaTreeNodes.RankedFacts | src/qa_store/qa_tree.py:150-151 | the ranking has `limit` nodes or all of them (for a non-negative limit), is in non-increasing priority, takes nodes of the flattening only, leaves out no node with a higher priority than one it keeps, and keeps preorder among equal priorities |
| QaTreeNodes.Ranked | src/qa_store/qa_tree.py:145-151 | the ranking has at most `limit` nodes and no more than the tree, in non-increasing priority |
| QaTreeNodes.RankedPriorities | src/qa_store/qa_tree.py:145-151 | every ranked node's priority is the number of leaves below it, and at least 1 |
| QaTree.BuiltRoot | src/qa_store/qa_tree.py:103-107 | with a parentless row the tree is rebuilt at the first one; without one the previous tree stays |
| QaTree.FlattenTree | src/qa_store/qa_tree.py:153-157 | the loop appending each child's flattening computes the preorder |
| QaTree.QuestionAnswerTree.constructor | src/qa_store/qa_tree.py:27-31 | the table is what the database holds, and no tree is cached |
| QaTree.QuestionAnswerTree.AddQuestion | src/qa_store/qa_tree.py:46-62 | appends one row with the given columns and returns its id, which no row had before; the cached tree is untouched |
| QaTree.QuestionAnswerTree.UpdateAnswer | src/qa_store/qa_tree.py:64-71 | the table becomes `SetAnswer` of the old table and stays well formed; the cached tree is untouched |
| QaTree.QuestionAnswerTree.GetChildren | src/qa_store/qa_tree.py:88-101 | the loop over the scan collects exactly the children, in table order |
| QaTree.QuestionAnswerTree.BuildTree | src/qa_store/qa_tree.py:103-107 | sets the cached tree to the tree at the first parentless row, or keeps it when there is none |
| QaTree.QuestionAnswerTree.CalculatePriorities | src/qa_store/qa_tree.py:117-119 | gives the cached tree, if any, its computed priorities |
| QaTree.QuestionAnswerTree.GetHighPriorityQuestions | src/qa_store/qa_tree.py:145-151 | builds the tree only if none is cached, fails with `NoRoot` when there is still none, and otherwise returns the ranking of the tree with computed priorities |
| QaTree.QuestionAnswerTree.GetAllDescendants | src/qa_store/qa_tree.py:188-204 | the recursive loop returns `DescendantIds` |
| QaTree.QuestionAnswerTree.CascadeDelete | src/qa_store/qa_tree.py:159-186 | deletes the ids `[node] + descendants` one by one, leaving `CascadeDeleted`, then rebuilds the tree |
| QaTree.QuestionAnswerTree.FindDuplicateQuestions | src/qa_store/qa_tree.py:132-143 | the loop over the groups builds exactly `DuplicateQuestions` |
| QaTree.ParseIds | src/qa_store/qa_tree.py:142 | parsing a `GROUP_CONCAT` of ids gives the ids back |
| QaTree.GroupConcatenates | src/qa_store/qa_tree.py:140-141 | each group of the query has at least one id and carries the concatenation of its text's ids |
| QaTree.DuplicatesComplete | src/qa_store/qa_tree.py:139-143 | a dictionary keyed by the groups' texts and mapping each to its ids is `DuplicateQuestions` |
| Helpers.GetJsonList | src/qa_store/helpers.py:44-51 | fails exactly on a non-object, and on the empty object (no first key); otherwise the first value if it is a list, or else the whole object wrapped in a list |
| Helpers.UnwrapsFirstList | src/qa_store/helpers.py:47-51 | a list under the first key comes back unchanged, whatever members follow |
| Helpers.WrapsOnce | src/qa_store/helpers.py:48-50 | a non-list first value gives `[object]`, and asking again gives the same list |
| QaKbRecords.Str | src/qa_store/qa_kb.py:238 | `str` gives `"None"` exactly for `None` and for the text `"None"`, so a stored missing answer cannot be told from that text |
| QaKbRecords.GenerateRewordings | src/qa_store/qa_kb.py:191-208 | with no rewordings asked for, the question alone and unchanged; always at least one entry |
| QaKbRecords.RewordingsShape | src/qa_store/qa_kb.py:203-205 | with rewordings, one entry per line of the stripped reply after the stripped question, every entry stripped |
| QaKbRecords.RewordingsRoundTrip | src/qa_store/qa_kb.py:203-205 | a reply of stripped, non-empty lines gives exactly those lines after the stripped question |
| QaKbRecords.SelectQuestions | src/qa_store/qa_kb.py:240-245 | a text with rewordings asked for gives its rewordings, a list with rewordings asked for gives its texts as they are, anything else gives `[question]` |
| QaKbRecords.ShapeHit | src/qa_store/qa_kb.py:319-327 | fails exactly on a hit without an answer; otherwise the question is the document, the answer is the metadata's, similarity plus distance is 1, and the metadata is the hit's without `answer` and nothing else removed |
| QaKbRecords.ShapeHitLosesNothing | src/qa_store/qa_kb.py:319-327 | putting the answer back into the shaped metadata gives the stored metadata, and the distance is recovered from the similarity |
| QaKbRecords.ShapeAll | src/qa_store/qa_kb.py:314-328 | shaping the pool fails exactly when some hit has no answer; otherwise hit `i` is shaped into result `i` |
| QaKbRecords.Candidates | src/qa_store/qa_kb.py:309-312 | the documents passed to the query are exactly those matching the `where` filter |
| QaKbRecords.StoreQuery | src/qa_store/qa_kb.py:309-312 | the store returns `n` hits, or every candidate when there are fewer (none for `n` of 0 or less), nearest first |
| QaKbRecords.PoolPrefix | src/qa_store/qa_kb.py:300-312 | the hits of the first texts start the pool of all of them |
| QaKbRecords.MergeFacts | src/qa_store/qa_kb.py:330-343 | the results have pairwise different answers, there are `n` of them or one per distinct answer, whichever is fewer (for a non-negative `n`), they are in non-increasing similarity, and each is the first hit in the pool with its answer |
| QaKbRecords.MergeKeepsFirsts | src/qa_store/qa_kb.py:331-336 | each result is the first hit in the pool with its answer |
| QaKbRecords.MergeKeepsBest | src/qa_store/qa_kb.py:339-343 | an answer cut by the truncation is no more similar than any result kept |
| QaKbRecords.MergeTiesFirstSeen | src/qa_store/qa_kb.py:339-343 | results of equal similarity are in the order their answers were first seen |
| QaKbRecords.MergeKeepsEveryAnswer | src/qa_store/qa_kb.py:331-343 | with room for all, every distinct answer of the pool is in the result |
| QaKbRecords.DedupHolds | src/qa_store/qa_kb.py:331-336 | the de-duplication keeps, for each answer of the pool, its first hit |
| QaKbRecords.DedupOrder | src/qa_store/qa_kb.py:331-336 | the de-duplication keeps the first-seen order of the answers |
| QaKbRecords.MergeWhole | src/qa_store/qa_kb.py:330-343 | with room for every hit, one result per distinct answer, each a hit of the pool |
| QaKbRecords.QueryResult | src/qa_store/qa_kb.py:265-346 | `query` fails only with a hit without an answer; otherwise its results have pairwise different answers, are in non-increasing similarity, and are at most `n` |
| QaKbRecords.DocIdParts | src/qa_store/qa_kb.py:255 | an id splits on `_` into `qa` and the two numbers |
| QaKbRecords.DocIdInjective | src/qa_store/qa_kb.py:255 | different counts or positions give different ids |
| QaKbRecords.StoredMetadata | src/qa_store/qa_kb.py:237-238 | the stored metadata has `answer` = `str(answer)`, and every other key is the caller's, with the caller's value |
| QaKbRecords.Batch | src/qa_store/qa_kb.py:251-261 | one document per selected question |
| QaKbRecords.BatchIdsDistinct | src/qa_store/qa_kb.py:251-255 | the ids of one batch are pairwise different |
| QaKbRecords.BatchKeepsIdsIssued | src/qa_store/qa_kb.py:251-261 | adding a batch keeps every id issued and unique, since the new ids carry a count no earlier id carries |
| QaKbRecords.BatchKeepsAnswersStored | src/qa_store/qa_kb.py:237-261 | adding a batch keeps every document's answer a text |
| QaKbRecords.StoreHitFrom | src/qa_store/qa_kb.py:312 | every hit of a store query carries the metadata of a document of the collection |
| QaKbRecords.QueryHitsAnswered | src/qa_store/qa_kb.py:312-322 | on a collection whose documents carry text answers, every hit carries one |
| QaKbRecords.PoolAnswered | src/qa_store/qa_kb.py:300-322 | on such a collection every pooled hit carries a text answer |
| QaKbRecords.QueryAnswered | src/qa_store/qa_kb.py:293-346 | on such a collection `query` never raises, and every answer it returns is text |
| QaKbRecords.UpdateKeepsIdsIssued | src/qa_store/qa_kb.py:379-383 | `collection.update` keeps the ids issued and unique |
| QaKbRecords.GenerateQaPairs | src/qa_store/qa_kb.py:148-168 | every pair returned has `q` and `a`, and a non-empty result is the list `get_json_list` gave |
| QaKbRecords.QaPairsAllOrNothing | src/qa_store/qa_kb.py:151-161 | the list is returned as it is when every element is a pair, and one malformed element makes the result empty |
| QaKbRecords.SinglePairAccepted | src/qa_store/qa_kb.py:148-161 | a reply that is one pair object, not a list, is accepted as a list of that pair |
| QaKbRecords.UpdateDoc | src/qa_store/qa_kb.py:379-383 | the update keeps every id and changes only the documents with the given id, which get the new text and metadata |
| QaKbRecords.AnswerUpdate | src/qa_store/qa_kb.py:348-386 | `update_answer` fails exactly on an empty store, with the not-found error; otherwise it keeps the number of documents and every id |
| QaKbRecords.NearestOne | src/qa_store/qa_kb.py:369-373 | a query for one result gives none on an empty candidate set, and otherwise the candidate nearest to the text |
| QaKbRecords.AnswerUpdateNearest | src/qa_store/qa_kb.py:369-385 | `update_answer` fails exactly on an empty store; otherwise it gives the document nearest to the question the question as text and `str(new_answer)` as answer, keeping its other metadata |
| QaKbRecords.UntaggedTreeQuestion | src/qa_store/qa_kb.py:435-439 | with no document tagged with the tree id, `update_tree_question` changes nothing |
| QaKbRecords.TreeQuestionUpdate | src/qa_store/qa_kb.py:435-439 | a successful `update_tree_question` keeps the number of documents and every id |
| QaKbRecords.TaggedTreeQuestion | src/qa_store/qa_kb.py:435-439 | with a tagged document, the update is `update_answer` on the question of the tagged document nearest to the empty text, unless that document has no answer |
| QaKbRecords.TreeLookup | src/qa_store/qa_kb.py:436-438 | the lookup's single result is the question of the nearest tagged document, unless that document has no answer |
| QaKbRecords.QueryOneHit | src/qa_store/qa_kb.py:293-346 | a one-result query without rewordings gives nothing, the error of a hit without an answer, or that one shaped hit |
| QaKbRecords.OneQueryPool | src/qa_store/qa_kb.py:293-312 | without rewordings, `query` sends its one text with the filter |
| QaKbRecords.TreePool | src/qa_store/qa_kb.py:430-433 | with room for every document, the query of `get_tree_questions` returns every document from the tree, in some order |
| QaKbRecords.TreeQuestionsFail | src/qa_store/qa_kb.py:430-433 | `get_tree_questions` fails exactly when a document from the tree has no answer |
| QaKbRecords.TreeQuestionsFacts | src/qa_store/qa_kb.py:430-433 | otherwise it gives one result per distinct answer among the documents from the tree, each read from such a document |
| QaKbRecords.TreeQuestions | src/qa_store/qa_kb.py:430-433 | `get_tree_questions` fails only with a hit without an answer; otherwise its results have pairwise different answers in non-increasing similarity |
| QaKb.QuestionAnswerKB.constructor | src/qa_store/qa_kb.py:99-114 | a new collection is empty |
| QaKb.QuestionAnswerKB.AddQa | src/qa_store/qa_kb.py:210-263 | a list of questions without rewordings fails as `set(questions)` does, leaving the collection unchanged; otherwise appends the batch of the selected questions with the stored metadata and ids at the current count, keeps ids issued and answers stored, and returns the set of selected questions |
| QaKb.BuildBatch | src/qa_store/qa_kb.py:247-261 | the loop collecting documents, metadata copies and ids builds the batch of `add_qa` |
| QaKb.QuestionAnswerKB.Query | src/qa_store/qa_kb.py:265-346 | returns `QueryResult`: the merged shaped pool, or the first shaping error |
| QaKb.QuestionAnswerKB.PoolHits | src/qa_store/qa_kb.py:300-328 | the loop over the selected texts shapes the whole pool in order, or stops at the first hit without an answer |
| QaKb.ShapeInto | src/qa_store/qa_kb.py:314-328 | the loop over one text's hits extends the shaped pool, or stops at the first hit without an answer |
| QaKb.ShapeAllSnoc | src/qa_store/qa_kb.py:319-327 | shaping one more hit that has an answer appends its shaped form |
| QaKb.ShapeAllPrefixFails | src/qa_store/qa_kb.py:322 | once the hits pooled so far include one without an answer, shaping the whole pool fails with `MissingAnswer` |
| QaKb.DedupAnswers | src/qa_store/qa_kb.py:331-336 | the loop with `seen_answers` keeps the first hit for each answer, in order |
| QaKb.DedupSnoc | src/qa_store/qa_kb.py:333-336 | a hit is kept exactly when its answer was not seen before |
| QaKb.QuestionAnswerKB.UpdateAnswer | src/qa_store/qa_kb.py:348-386 | on success the documents become `AnswerUpdate` of the old ones; on an empty store it fails and changes nothing |
| QaKb.QuestionAnswerKB.AddTreeQuestion | src/qa_store/qa_kb.py:424-428 | appends one document `qa_{count}_0` tagged with the tree id and `from_tree`, with `str(answer)` |
| QaKb.QuestionAnswerKB.GetTreeQuestions | src/qa_store/qa_kb.py:430-433 | the query for the empty text over the documents from the tree, with room for all documents |
| QaKb.QuestionAnswerKB.UpdateTreeQuestion | src/qa_store/qa_kb.py:435-439 | on success the documents become `TreeQuestionUpdate` of the old ones; on failure nothing changes |
| QaSystem.AddTreeKeepsTagged | src/qa_store/qa_kb.py:424-428 | the document `add_tree_question` appends keeps every document from the tree tagged with an integer id |
| QaSystem.NewAnswerKeeps | src/qa_store/qa_kb.py:377-378 | the metadata `update_answer` writes carries a text answer and keeps the tree id |
| QaSystem.UpdateDocKeeps | src/qa_store/qa_kb.py:379-383 | rewriting documents with such metadata keeps both KB invariants |
| QaSystem.AnswerUpdateKeeps | src/qa_store/qa_kb.py:369-385 | on a KB with text answers `update_answer` fails exactly when the KB is empty, and keeps both invariants |
| QaSystem.EmptyTreeLookup | src/qa_store/qa_kb.py:436 | the lookup of `update_tree_question` in an empty KB finds nothing |
| QaSystem.TreeQuestionUpdateKeeps | src/qa_store/qa_kb.py:435-439 | on a KB with text answers `update_tree_question` never fails and keeps both invariants |
| QaSystem.SyncStep | src/qa_store/qa_system.py:41-43 | one iteration keeps the table well formed |
| QaSystem.SyncRows | src/qa_store/qa_system.py:40-43 | the loop keeps the table well formed |
| QaSystem.SyncKbToTreeResult | src/qa_store/qa_system.py:38-43 | the pass keeps the table well formed |
| QaSystem.SyncRowsEffect | src/qa_store/qa_system.py:40-43 | every row is left as it was, or was unanswered and gets the answer of a result naming its id |
| QaSystem.SyncKeepsAnswered | src/qa_store/qa_system.py:42 | an answered row reads the same after the pass, whatever the KB holds |
| QaSystem.SetAnswerDone | src/qa_store/qa_system.py:42-43 | writing an answer makes the row answered and undoes no answer |
| QaSystem.SyncSettles | src/qa_store/qa_system.py:40-43 | after a pass without failure every result names a row that is answered or absent |
| QaSystem.SettledSyncsNothing | src/qa_store/qa_system.py:40-43 | a pass over such rows changes nothing and does not fail |
| QaSystem.SyncIdempotent | src/qa_store/qa_system.py:38-43 | a second `sync_kb_to_tree` with nothing changed in between writes nothing |
| QaSystem.SyncRowsNoFailure | src/qa_store/qa_system.py:41 | results that all name an integer tree id never stop the pass |
| QaSystem.SyncNeverFails | src/qa_store/qa_system.py:39-41 | on a KB kept by the system, `sync_kb_to_tree` never fails |
| QaSystem.HitNamesTreeId | src/qa_store/qa_system.py:41 | a result read from a tagged document names an integer tree id |
| QaSystem.SyncRowsStops | src/qa_store/qa_system.py:40-43 | after a failure the pass does nothing more |
| QaSystem.SyncRowsSnoc | src/qa_store/qa_system.py:40-43 | one more iteration applies one more step, unless the pass has failed |
| QaSystem.TreeUpdatesExactly | src/qa_store/qa_system.py:45-48 | exactly one update per answered row, carrying its id and answer, in increasing id order |
| QaSystem.TreeUpdatesCover | src/qa_store/qa_system.py:46-48 | every answered row is pushed |
| QaSystem.TreeUpdatesFromRows | src/qa_store/qa_system.py:46-48 | every update pushed comes from an answered row, with its answer |
| QaSystem.TreeUpdatesIncreasing | src/qa_store/qa_system.py:46-48 | updates are pushed in increasing id order |
| QaSystem.PushNeverFails | src/qa_store/qa_system.py:45-48 | on a KB with text answers no update fails, and both KB invariants hold afterwards |
| QaSystem.PushStops | src/qa_store/qa_system.py:47-48 | after a failure the pass does nothing more |
| QaSystem.PushSnoc | src/qa_store/qa_system.py:47-48 | one more iteration is one more `update_tree_question`, unless the pass has failed |
| QaSystem.PushAnswers | src/qa_store/qa_system.py:45-48 | the pass over the answered rows keeps the number of documents |
| QaSystem.PushKeepsIds | src/qa_store/qa_system.py:45-48 | the pass adds, removes and renames no document: every id stays where it was |
| QaSystem.QuestionAnswerSystem.PushOne | src/qa_store/qa_system.py:47-48 | one `update_tree_question` extends the pass by one update, with its failure, and keeps the system's invariants |
| QaSystem.RankedTree | src/qa_store/qa_system.py:52-53 | a cached tree is ranked as it is |
| QaSystem.FirstUnansweredFacts | src/qa_store/qa_system.py:60-66 | nothing is suggested exactly when every ranked node has a truthy answer; otherwise the suggestion is the first ranked node without one |
| QaSystem.SuggestFacts | src/qa_store/qa_system.py:50-72 | fails exactly when there is no tree; returns None exactly when every one of the top ten nodes has a truthy answer; otherwise suggests the first of them without one, whose priority is its leaf count |
| QaSystem.Suggest | src/qa_store/qa_system.py:50-72 | a suggested question has priority at least 1 |
| QaSystem.QuestionAnswerSystem.constructor | src/qa_store/qa_system.py:8-10 | a tree over the existing table with no tree cached, and an empty KB |
| QaSystem.QuestionAnswerSystem.AddQuestion | src/qa_store/qa_system.py:12-15 | appends an unanswered row with a new id and one KB document tagged with that id whose answer is `str(None)`, and returns the id |
| QaSystem.QuestionAnswerSystem.AnswerQuestion | src/qa_store/qa_system.py:17-19 | the row gets the answer as `update_answer` gives it, then the KB is updated as `update_tree_question` does |
| QaSystem.QuestionAnswerSystem.SyncKbToTree | src/qa_store/qa_system.py:38-43 | the table becomes `SyncKbToTreeResult` of the old table and the KB, with its failure; the cached tree is untouched |
| QaSystem.QuestionAnswerSystem.SyncTreeToKb | src/qa_store/qa_system.py:45-48 | the KB becomes `PushAnswers` of the answered rows, with its failure; the tree is untouched |
| QaSystem.QuestionAnswerSystem.SuggestNextQuestion | src/qa_store/qa_system.py:50-72 | returns `Suggest` of the old table and cached tree, and caches the tree it ranked |
| QaSystem.PlaceholderSynced | src/qa_store/qa_system.py:38-43 | right after `add_question` on an empty system, a pass marks the new question answered with the text "None" |
| QaSystem.PendingTreeQuestion | src/qa_store/qa_kb.py:424-433 | a KB holding only a pending question gives one result, naming its id, with the answer "None" |
| QaSystem.TaggedMetadata | src/qa_store/qa_kb.py:427-428 | the metadata `add_tree_question` stores passes the `from_tree` filter and carries a text answer |
| QaSystem.TaggedResult | src/qa_store/qa_kb.py:424-433 | a result read from such a document names the tree id and carries the stored answer |
| QaSystem.OneTreeQuestion | src/qa_store/qa_kb.py:430-433 | a KB of one document from the tree gives exactly that document's question |
| QaSystem.AnswerTextNone | src/qa_store/qa_system.py:43 | only `str(None)` reads back as the text "None" |
| QaSystem.SyncKbToTreeIntended | src/qa_store/qa_system.py:38-43 | the corrected pass keeps the table well formed |
| QaSystem.IntendedSyncNoPlaceholder | src/qa_store/qa_system.py:38-43 | the corrected pass never changes an answered row, and a row it changes gets a real answer, never the placeholder |
| QaSystem.NoPlaceholderWritten | src/qa_store/qa_system.py:40-43 | results that all carry an answer never write the placeholder |
| QaSystem.StaleSuggestion | src/qa_store/qa_system.py:50-57 | as written, a question suggested and then answered is suggested again by the next call |
| QaSystem.SuggestFreshIsCurrent | src/qa_store/qa_system.py:50-72 | a suggestion from a freshly built tree is a row of the current table with its question and parent, and the table records no truthy answer for it |
| QaSystem.RankedRow | src/qa_store/qa_tree.py:145-157 | every ranked node carries the row of a node of the tree |
| QaSystem.AnsweredNotSuggested | src/qa_store/qa_system.py:17-19 | with a freshly built tree, a question just given a non-empty answer is never the next suggestion |

## Findings

| source | as written | input that shows it | evidently intended | confidence | as-written member | corrected member |
|---|---|---|---|---|---|---|
| src/qa_store/qa_system.py:42 | the guard `q["answer"] is not None` never fails: `add_tree_question` without an answer stores `str(None)`, the text "None" (qa_kb.py:238, 427-428) | an empty system, `add_question("q")`, then `sync_kb_to_tree()`: row 1 gets the answer "None" and counts as answered from then on | results that carry only the placeholder are skipped, so a question with no answer stays unanswered | not executed | QaSystem.PlaceholderSynced | QaSystem.IntendedSyncNoPlaceholder |
| src/qa_store/qa_system.py:52-57 | the tree is built only when none is cached (also qa_tree.py:146-147), and `update_answer` does not refresh it, so the ranking reads answers as they were when the tree was first built | a table with one unanswered row 1: `suggest_next_question()` gives row 1; `answer_question(1, "a")`; `suggest_next_question()` gives row 1 again | the suggestion reflects the table as it is now: a question just answered is not suggested | not executed | QaSystem.StaleSuggestion | QaSystem.AnsweredNotSuggested |

The corrected definitions are `QaSystem.SyncKbToTreeIntended` and
`QaSystem.SuggestFresh`. The class methods model the code as written, so the
corrections sit beside them and do not replace them. The lemmas above
(`IntendedSyncNoPlaceholder`, `NoPlaceholderWritten`, `SuggestFreshIsCurrent`,
`AnsweredNotSuggested`) state the intended behaviour of the corrections.

## Left out

- QaTree.QuestionAnswerTree.AddQuestion: requires a parent id below the next id, which the code does not check. Without it the parent ids could form a cycle and `_get_all_descendants` would not terminate.
- QaSystem.QuestionAnswerSystem.AddQuestion: the same requirement on the parent id, for the same reason.
- SQLite plumbing: the connection, `commit`, `close`, and the `rollback` branch of `cascade_delete` (a single in-memory `DELETE` cannot fail).
- The JSON text of the `metadata` column: `json.dumps` in `add_question` and `json.loads` in `get_question`, `get_children` and `get_answered_questions`. The column is kept as text.
- The order in which `GROUP_CONCAT` lists the ids of a group: taken to be table order, which SQLite does not promise.
- `QuestionNode` objects are values: updating `node.children` and `node.priority` in place, and sharing nodes between the cached tree and the ranking, are not modelled.
- `visualize` (Graphviz, files), logging, `print`, prompts and environment settings.
- The embedding model and nearest-neighbour search: the `distance` function is an input. Documents at equal distance are taken in insertion order, which the store does not promise. The store's checks on `n_results` (such as refusing a `count()` of 0) are not modelled.
- Floating point in `1 - distance`: similarities and distances are integers.
- The LLM completion calls: their replies are inputs. A failing call inside `generate_rewordings` is not modelled.
- A question given as a list with rewordings off is sent to the store as one query value. The store's treatment of a list in `query_texts` is not modelled.
- QaKb.QuestionAnswerKB.AddQa: for a list of questions without rewordings the model leaves the collection unchanged. In the code `collection.add` runs before `set(questions)` raises, with the whole list as one document; whether the store refuses that document or keeps it depends on the store's own checks, which are not modelled.
- `add_qa` writes `answer` into the caller's metadata dict. The model does not show that side effect on the caller.
- Opening a KB over an existing collection: the KB constructor creates an empty one.
- `get_all_questions`, `clear`, `reset_database`, and `main.py` (an older wrapper of the store).
- The system's pass-through `query`, `get_unanswered_questions` and `get_answered_questions`: these only reshape the tree's rows into dictionaries.
- A `tree_id` that is not an integer is the failure `BadTreeId`. What SQLite would do with such a value is not modelled.
- Idempotence of `sync_tree_to_kb`: the second pass looks the documents up again by distance, so with an arbitrary `distance` it is not implied by the code. It is not stated.
- Concurrency: the model is single-threaded.
