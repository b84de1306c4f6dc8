/** The `QuestionAnswerTree` class of qa_tree.py: a table of questions and
    the cached tree built from it. */
module QaTree {
  import opened Wrappers
  import opened Sequences
  import opened Text
  import opened QaTreeTable
  import opened QaTreeNodes

  /** The only failure of the ranking: `_flatten_tree(None)` raises when the
      table has no parentless row to build a tree from. */
  datatype TreeError = NoRoot

  /** What `build_tree` leaves in `root`: the tree at the first parentless
      row, or the previous tree when there is no such row. */
  function BuiltRoot(rows: Table, previous: Option<Node>): (root: Option<Node>)
    requires WellFormed(rows)
    ensures root.Some? ==> root == previous || (root.value.row in rows && root.value.row.parentId.None?)
    ensures FirstRoot(rows).Some? ==> root.Some? && root.value.row == FirstRoot(rows).value
    ensures FirstRoot(rows).None? ==> root == previous
  {
    match FirstRoot(rows)
    case None => previous
    case Some(r) => Some(SubtreeAt(rows, r))
  }

  /** `_flatten_tree`: the node, then each child's flattening, appended in
      turn. */
  method FlattenTree(node: Node) returns (flat: seq<Node>)
    ensures flat == Flatten(node)
    decreases node
  {
    flat := [node];
    for i := 0 to |node.children|
      invariant flat == [node] + FlattenAll(node.children[..i])
    {
      var sub := FlattenTree(node.children[i]);
      assert node.children[..i + 1] == node.children[..i] + [node.children[i]];
      FlattenAllSnoc(node.children[..i], node.children[i]);
      flat := flat + sub;
    }
    assert node.children[..|node.children|] == node.children;
  }

  class QuestionAnswerTree {
    /** The `questions` table, in rowid order. */
    var rows: Table
    /** The tree last built, as `self.root`. */
    var root: Option<Node>

    ghost predicate Valid()
      reads this
    {
      WellFormed(rows)
    }

    /** Opening a database: the table is whatever the file already holds,
        and no tree is built yet. */
    constructor (existing: Table)
      requires WellFormed(existing)
      ensures Valid() && rows == existing && root == None
    {
      rows := existing;
      root := None;
    }

    /** `add_question`: inserts a row and returns its id, one above every id
        in the table. `metadata` is the column's JSON text, None when the
        metadata is absent or empty. */
    method AddQuestion(question: string, parentId: Option<int>, answer: Option<string>, metadata: Option<string>)
      returns (id: nat)
      requires Valid()
      requires parentId.Some? ==> parentId.value < NextId(rows)
      modifies this
      ensures Valid()
      ensures id == old(NextId(rows)) && !HasId(old(rows), id)
      ensures rows == old(rows) + [Row(id, question, answer, metadata, parentId)]
      ensures root == old(root)
    {
      id := NextId(rows);
      rows := rows + [Row(id, question, answer, metadata, parentId)];
    }

    /** `update_answer`: sets the answer of the row with that id; an id with
        no row changes nothing. The cached tree is not refreshed. */
    method UpdateAnswer(questionId: int, answer: string)
      requires Valid()
      modifies this
      ensures Valid()
      ensures rows == SetAnswer(old(rows), questionId, answer)
      ensures root == old(root)
    {
      SetAnswerWellFormed(rows, questionId, answer);
      rows := SetAnswer(rows, questionId, answer);
    }

    /** `get_children`: the rows whose parent id is `parentId`, collected
        in table order. */
    method GetChildren(parentId: int) returns (children: Table)
      requires Valid()
      ensures children == ChildrenOf(rows, parentId)
    {
      children := [];
      for i := 0 to |rows|
        invariant children == ChildrenOf(rows[..i], parentId)
      {
        assert rows[..i + 1] == rows[..i] + [rows[i]];
        FilterSnoc(rows[..i], rows[i], (x: Row) => x.parentId == Some(parentId));
        if rows[i].parentId == Some(parentId) {
          children := children + [rows[i]];
        }
      }
      assert rows[..|rows|] == rows;
    }

    /** `build_tree`. */
    method BuildTree()
      requires Valid()
      modifies this
      ensures Valid() && rows == old(rows)
      ensures root == BuiltRoot(rows, old(root))
    {
      var first := FirstRoot(rows);
      if first.Some? {
        root := Some(SubtreeAt(rows, first.value));
      }
    }

    /** `calculate_priorities`: gives every node of the cached tree its
        priority. */
    method CalculatePriorities()
      modifies this
      ensures rows == old(rows)
      ensures root == if old(root).Some? then Some(Prioritized(old(root).value)) else None
    {
      if root.Some? {
        root := Some(Prioritized(root.value));
      }
    }

    /** `get_high_priority_questions`: builds the tree if none is cached,
        computes priorities and returns the top `limit` nodes. */
    method GetHighPriorityQuestions(limit: int) returns (r: Result<seq<Node>, TreeError>)
      requires Valid()
      modifies this
      ensures Valid() && rows == old(rows)
      ensures var built := if old(root).None? then BuiltRoot(rows, old(root)) else old(root);
        && root == (if built.Some? then Some(Prioritized(built.value)) else None)
        && r == (if built.Some? then Ok(Ranked(Prioritized(built.value), limit)) else Err(NoRoot))
    {
      if root.None? {
        BuildTree();
      }
      CalculatePriorities();
      if root.None? {
        return Err(NoRoot);
      }
      var allNodes := FlattenTree(root.value);
      r := Ok(Prefix(SortDesc(allNodes, PriorityOf), limit));
    }

    /** `_get_all_descendants`: each child's id, then the child's own
        descendants, child by child. */
    method GetAllDescendants(nodeId: int) returns (descendants: seq<nat>)
      requires Valid()
      ensures descendants == DescendantIds(rows, nodeId)
      decreases NextId(rows) - nodeId
    {
      var table := rows;
      descendants := [];
      var children := ChildrenOf(table, nodeId);
      for i := 0 to |children|
        invariant descendants == DescendantsOf(table, nodeId, children[..i])
      {
        var child := children[i];
        DescendantsOfStep(table, nodeId, children, i);
        descendants := descendants + [child.id];
        var below := GetAllDescendants(child.id);
        descendants := descendants + below;
      }
      assert children[..|children|] == children;
    }

    /** `cascade_delete`: removes the node and all its descendants, then
        rebuilds the tree. */
    method CascadeDelete(nodeId: int)
      requires Valid()
      modifies this
      ensures Valid()
      ensures rows == CascadeDeleted(old(rows), nodeId)
      ensures root == BuiltRoot(rows, old(root))
    {
      var descendantIds := GetAllDescendants(nodeId);
      var idsToDelete := [nodeId] + descendantIds;
      var table := rows;
      var remaining := table;
      for i := 0 to |idsToDelete|
        invariant remaining == DeleteIds(table, idsToDelete[..i])
        invariant rows == old(rows) && root == old(root)
      {
        DeleteIdsStep(table, idsToDelete, i);
        remaining := DeleteId(remaining, idsToDelete[i]);
      }
      assert idsToDelete[..|idsToDelete|] == idsToDelete;
      assert table == old(rows) && root == old(root);
      assert remaining == CascadeDeleted(old(rows), nodeId);
      rows := remaining;
      BuildTree();
    }

    /** `find_duplicate_questions`: reads each group of the query and parses
        its concatenated ids back into numbers. */
    method FindDuplicateQuestions() returns (duplicates: map<string, seq<nat>>)
      requires Valid()
      ensures duplicates == DuplicateQuestions(rows)
    {
      var groups := DuplicateGroups(rows);
      duplicates := map[];
      for i := 0 to |groups|
        invariant duplicates.Keys == GroupQuestions(groups[..i])
        invariant forall q :: q in duplicates ==> duplicates[q] == IdsWithQuestion(rows, q)
      {
        var (question, idList) := groups[i];
        GroupConcatenates(rows, i);
        var parsed := ParseIds(IdsWithQuestion(rows, question), idList);
        duplicates := duplicates[question := parsed];
        GroupQuestionsSnoc(groups, i);
      }
      assert groups[..|groups|] == groups;
      DuplicatesComplete(rows, duplicates);
    }
  }

  lemma GroupConcatenates(rows: Table, i: nat)
    requires i < |DuplicateGroups(rows)|
    ensures var g := DuplicateGroups(rows)[i];
      |IdsWithQuestion(rows, g.0)| >= 1 && g.1 == GroupConcat(IdsWithQuestion(rows, g.0))
  {
    DuplicateGroupsExactly(rows);
  }

  /** `[int(id) for id in id_list.split(",")]` on a `GROUP_CONCAT` of ids
      gives the ids back. */
  method ParseIds(ghost ids: seq<nat>, idList: string) returns (parsed: seq<nat>)
    requires |ids| >= 1 && idList == GroupConcat(ids)
    ensures parsed == ids
  {
    GroupConcatParses(ids);
    var parts := Split(idList, ',');
    parsed := [];
    for j := 0 to |parts|
      invariant parsed == ids[..j]
    {
      parsed := parsed + [DecimalValue(parts[j])];
    }
  }

  lemma DeleteIdsStep(rows: Table, ids: seq<int>, i: nat)
    requires i < |ids|
    ensures DeleteIds(rows, ids[..i + 1]) == DeleteId(DeleteIds(rows, ids[..i]), ids[i])
  {
    assert ids[..i + 1][..i] == ids[..i];
  }

  /** The question texts of some groups of the duplicates query. */
  function GroupQuestions(groups: seq<(string, string)>): set<string>
  {
    set k | 0 <= k < |groups| :: groups[k].0
  }

  lemma GroupQuestionsSnoc(groups: seq<(string, string)>, i: nat)
    requires i < |groups|
    ensures GroupQuestions(groups[..i + 1]) == GroupQuestions(groups[..i]) + {groups[i].0}
  {
    var a := groups[..i + 1];
    assert a[i] == groups[i];
    forall q | q in GroupQuestions(a) ensures q in GroupQuestions(groups[..i]) + {groups[i].0} {
      var k :| 0 <= k < |a| && a[k].0 == q;
      if k < i { assert groups[..i][k] == a[k]; }
    }
    forall q | q in GroupQuestions(groups[..i]) ensures q in GroupQuestions(a) {
      var k :| 0 <= k < i && groups[..i][k].0 == q;
      assert a[k] == groups[..i][k];
    }
  }

  lemma DuplicatesComplete(rows: Table, duplicates: map<string, seq<nat>>)
    requires duplicates.Keys == GroupQuestions(DuplicateGroups(rows))
    requires forall q :: q in duplicates ==> duplicates[q] == IdsWithQuestion(rows, q)
    ensures duplicates == DuplicateQuestions(rows)
  {
    GroupQuestionsAll(rows);
    var expected := DuplicateQuestions(rows);
    forall q | q in expected ensures q in duplicates && duplicates[q] == expected[q] {
      assert q in expected.Keys;
    }
    forall q | q in duplicates ensures q in expected {
      assert q in duplicates.Keys;
    }
  }

  lemma GroupQuestionsAll(rows: Table)
    ensures GroupQuestions(DuplicateGroups(rows)) == DuplicateQuestions(rows).Keys
  {
    DuplicateGroupsExactly(rows);
    var g := DuplicateGroups(rows);
    forall q | q in GroupQuestions(g) ensures q in DuplicateQuestions(rows) {
      var k :| 0 <= k < |g| && g[k].0 == q;
    }
  }
}
