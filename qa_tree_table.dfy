/** The `questions` table of qa_tree.py and the read-only views the tree
    store derives from it: lookup by id, children, the answered/unanswered
    scans, descendants and duplicate question texts.

    The table is a sequence of rows in rowid order, which is the order in
    which SQLite returns rows of a query without ORDER BY. */
module QaTreeTable {
  import opened Wrappers
  import opened Sequences
  import opened Text

  /** One row: `metadata` is the JSON text stored in the column, or None for
      SQL NULL; `parentId` is not checked by the database. */
  datatype Row = Row(
    id: nat,
    question: string,
    answer: Option<string>,
    metadata: Option<string>,
    parentId: Option<int>)

  type Table = seq<Row>

  /** Ids are positive and ascending (rowid order), and a row's parent id,
      when set, is smaller than its own id. The database checks neither the
      parent's existence nor its order; the second holds because a new row
      takes an id above every issued one and (in this model) names a parent
      that was issued before it. It is what makes the recursive walks over
      the tree terminate. */
  ghost predicate WellFormed(rows: Table) {
    && Increasing(rows, Id)
    && forall x :: x in rows ==> x.id >= 1 && (x.parentId.Some? ==> x.parentId.value < x.id)
  }

  function Id(r: Row): int { r.id }

  predicate HasId(rows: Table, id: int) {
    exists i :: 0 <= i < |rows| && rows[i].id == id
  }

  /** The id SQLite gives the next inserted row: one more than the largest
      rowid, or 1 in an empty table. */
  function NextId(rows: Table): (id: nat)
    requires WellFormed(rows)
    ensures id >= 1
    ensures forall i :: 0 <= i < |rows| ==> rows[i].id < id
  {
    if |rows| == 0 then 1 else rows[|rows| - 1].id + 1
  }

  /** `get_question`: the row with that id, if there is one. */
  function GetQuestion(rows: Table, id: int): (r: Option<Row>)
    ensures r.Some? <==> HasId(rows, id)
    ensures r.Some? ==> r.value in rows && r.value.id == id
  {
    if |rows| == 0 then None
    else if rows[0].id == id then Some(rows[0])
    else
      var r := GetQuestion(rows[1..], id);
      assert HasId(rows, id) ==> HasId(rows[1..], id) by {
        if HasId(rows, id) {
          var i :| 0 <= i < |rows| && rows[i].id == id;
          assert rows[1..][i - 1] == rows[i];
        }
      }
      assert HasId(rows[1..], id) ==> HasId(rows, id) by {
        if HasId(rows[1..], id) {
          var i :| 0 <= i < |rows[1..]| && rows[1..][i].id == id;
          assert rows[i + 1] == rows[1..][i];
        }
      }
      r
  }

  /** In a well-formed table the row with a given id is unique, so the
      lookup finds exactly that row. */
  lemma GetQuestionIsTheRow(rows: Table, i: nat)
    requires WellFormed(rows) && i < |rows|
    ensures GetQuestion(rows, rows[i].id) == Some(rows[i])
  {
    var r := GetQuestion(rows, rows[i].id).value;
    var k :| 0 <= k < |rows| && rows[k] == r;
    assert k == i;
  }

  /** `is_answered`: a row with that id exists and its answer is not NULL. */
  function IsAnswered(rows: Table, id: int): (b: bool)
    requires WellFormed(rows)
    ensures b <==> exists i :: 0 <= i < |rows| && rows[i].id == id && rows[i].answer.Some?
  {
    match GetQuestion(rows, id)
    case None => false
    case Some(r) =>
      assert (exists i :: 0 <= i < |rows| && rows[i].id == id && rows[i].answer.Some?) ==> r.answer.Some? by {
        if exists i :: 0 <= i < |rows| && rows[i].id == id && rows[i].answer.Some? {
          var i :| 0 <= i < |rows| && rows[i].id == id && rows[i].answer.Some?;
          GetQuestionIsTheRow(rows, i);
        }
      }
      r.answer.Some?
  }

  /** A filter over the table is itself well formed. */
  lemma FilterWellFormed(rows: Table, p: Row -> bool)
    requires WellFormed(rows)
    ensures WellFormed(Filter(rows, p))
  {
    FilterIncreasing(rows, p, Id);
  }

  /** `get_answered_questions`: the answered rows, whole, in table order. */
  function AnsweredRows(rows: Table): (r: Table)
    ensures forall x :: x in r <==> x in rows && x.answer.Some?
  {
    Filter(rows, (x: Row) => x.answer.Some?)
  }

  /** A row as `get_unanswered_questions` returns it: that query selects
      id, question and parent id only, so no metadata comes back. */
  function Bare(r: Row): Row {
    r.(metadata := None)
  }

  /** `get_unanswered_questions`: the rows whose answer is NULL, in table
      order, without their metadata. */
  function UnansweredRows(rows: Table): (r: Table)
    ensures forall x :: x in r <==> exists y :: y in rows && y.answer.None? && x == Bare(y)
  {
    var f := Filter(rows, (x: Row) => x.answer.None?);
    var r := seq(|f|, i requires 0 <= i < |f| => Bare(f[i]));
    assert forall x :: x in r ==> exists y :: y in rows && y.answer.None? && x == Bare(y) by {
      forall x | x in r ensures exists y :: y in rows && y.answer.None? && x == Bare(y) {
        var i :| 0 <= i < |r| && r[i] == x;
        assert f[i] in f;
      }
    }
    assert forall y :: y in rows && y.answer.None? ==> Bare(y) in r by {
      forall y | y in rows && y.answer.None? ensures Bare(y) in r {
        var i :| 0 <= i < |f| && f[i] == y;
        assert r[i] == Bare(y);
      }
    }
    r
  }

  /** Every row shows up in exactly one of the two scans: answered rows in
      `get_answered_questions`, the others in `get_unanswered_questions`. */
  lemma ScansPartition(rows: Table)
    requires WellFormed(rows)
    ensures |AnsweredRows(rows)| + |UnansweredRows(rows)| == |rows|
    ensures KeysOf(AnsweredRows(rows), Id) + KeysOf(UnansweredRows(rows), Id) == KeysOf(rows, Id)
    ensures KeysOf(AnsweredRows(rows), Id) !! KeysOf(UnansweredRows(rows), Id)
  {
    FilterComplement(rows, (x: Row) => x.answer.Some?, (x: Row) => x.answer.None?);
    ScansCover(rows);
    ScansDisjoint(rows);
  }

  lemma ScansCover(rows: Table)
    ensures KeysOf(AnsweredRows(rows), Id) + KeysOf(UnansweredRows(rows), Id) == KeysOf(rows, Id)
  {
    var a := AnsweredRows(rows);
    var u := UnansweredRows(rows);
    forall k | k in KeysOf(rows, Id) ensures k in KeysOf(a, Id) + KeysOf(u, Id) {
      var i :| 0 <= i < |rows| && Id(rows[i]) == k;
      RowScanned(rows, i);
    }
    forall k | k in KeysOf(a, Id) ensures k in KeysOf(rows, Id) {
      var j :| 0 <= j < |a| && Id(a[j]) == k;
      var i := AnsweredAt(rows, j);
      assert Id(rows[i]) == k;
    }
    forall k | k in KeysOf(u, Id) ensures k in KeysOf(rows, Id) {
      var m :| 0 <= m < |u| && Id(u[m]) == k;
      var i := UnansweredAt(rows, m);
      assert Id(rows[i]) == k;
    }
  }

  /** Where an answered row of the scan sits in the table. */
  lemma AnsweredAt(rows: Table, j: nat) returns (i: nat)
    requires j < |AnsweredRows(rows)|
    ensures i < |rows| && rows[i] == AnsweredRows(rows)[j] && rows[i].answer.Some?
  {
    var a := AnsweredRows(rows);
    assert a[j] in a;
    i :| 0 <= i < |rows| && rows[i] == a[j];
  }

  /** Which row of the table an unanswered row of the scan was read from. */
  lemma UnansweredAt(rows: Table, m: nat) returns (i: nat)
    requires m < |UnansweredRows(rows)|
    ensures i < |rows| && rows[i].answer.None? && UnansweredRows(rows)[m] == Bare(rows[i])
  {
    var u := UnansweredRows(rows);
    assert u[m] in u;
    var y :| y in rows && y.answer.None? && u[m] == Bare(y);
    i :| 0 <= i < |rows| && rows[i] == y;
  }

  /** Each row's id shows up in one of the two scans. */
  lemma RowScanned(rows: Table, i: nat)
    requires i < |rows|
    ensures rows[i].id in KeysOf(AnsweredRows(rows), Id) + KeysOf(UnansweredRows(rows), Id)
  {
    var y := rows[i];
    if y.answer.Some? {
      var a := AnsweredRows(rows);
      assert y in a;
      var j :| 0 <= j < |a| && a[j] == y;
      assert Id(a[j]) == y.id;
    } else {
      var u := UnansweredRows(rows);
      assert Bare(y) in u;
      var j :| 0 <= j < |u| && u[j] == Bare(y);
      assert Id(u[j]) == y.id;
    }
  }

  lemma ScansDisjoint(rows: Table)
    requires WellFormed(rows)
    ensures KeysOf(AnsweredRows(rows), Id) !! KeysOf(UnansweredRows(rows), Id)
  {
    var a := AnsweredRows(rows);
    var u := UnansweredRows(rows);
    forall j, m | 0 <= j < |a| && 0 <= m < |u| ensures Id(a[j]) != Id(u[m]) {
      var i := AnsweredAt(rows, j);
      var i' := UnansweredAt(rows, m);
      IdsDiffer(rows, i, i');
    }
  }

  /** Two different rows of a well-formed table have different ids. */
  lemma IdsDiffer(rows: Table, i: nat, i': nat)
    requires WellFormed(rows) && i < |rows| && i' < |rows| && i != i'
    ensures rows[i].id != rows[i'].id
  {
    if i < i' { assert Id(rows[i]) < Id(rows[i']); }
    if i' < i { assert Id(rows[i']) < Id(rows[i]); }
  }

  /** `get_children`: the rows whose parent id is `p`, in table order. */
  function ChildrenOf(rows: Table, p: int): (cs: Table)
    ensures forall x :: x in cs <==> x in rows && x.parentId == Some(p)
  {
    Filter(rows, (x: Row) => x.parentId == Some(p))
  }

  /** `DELETE FROM questions WHERE id = ?` for one id. */
  function DeleteId(rows: Table, id: int): (r: Table)
    ensures forall x :: x in r <==> x in rows && x.id != id
  {
    Filter(rows, (x: Row) => x.id != id)
  }

  /** The same statement executed for each id in turn, as `executemany`
      does. */
  function DeleteIds(rows: Table, ids: seq<int>): (r: Table)
    ensures forall x :: x in r <==> x in rows && x.id !in ids
    ensures WellFormed(rows) ==> WellFormed(r)
  {
    if |ids| == 0 then rows
    else
      var last := ids[|ids| - 1];
      assert forall k :: k in ids <==> k in ids[..|ids| - 1] || k == last;
      var r := DeleteId(DeleteIds(rows, ids[..|ids| - 1]), last);
      assert WellFormed(rows) ==> WellFormed(r) by {
        if WellFormed(rows) {
          FilterWellFormed(DeleteIds(rows, ids[..|ids| - 1]), (x: Row) => x.id != last);
        }
      }
      r
  }
  /** `UPDATE questions SET answer = ? WHERE id = ?`. */
  function SetAnswer(rows: Table, id: int, answer: string): (r: Table)
    ensures |r| == |rows|
  {
    if |rows| == 0 then []
    else [if rows[0].id == id then rows[0].(answer := Some(answer)) else rows[0]]
         + SetAnswer(rows[1..], id, answer)
  }

  /** After the update, looking up the updated id finds the new answer with
      every other column unchanged, and every other id finds what it found
      before. An id with no row leaves the table as it was. */
  lemma {:induction false} SetAnswerLookup(rows: Table, id: int, answer: string, k: int)
    ensures GetQuestion(SetAnswer(rows, id, answer), k)
         == match GetQuestion(rows, k)
            case None => None
            case Some(r) => Some(if k == id then r.(answer := Some(answer)) else r)
  {
    if |rows| > 0 {
      SetAnswerLookup(rows[1..], id, answer, k);
      assert SetAnswer(rows, id, answer)[1..] == SetAnswer(rows[1..], id, answer);
    }
  }

  lemma {:induction false} SetAnswerKeepsColumns(rows: Table, id: int, answer: string)
    ensures forall i :: 0 <= i < |rows| ==>
      SetAnswer(rows, id, answer)[i].(answer := rows[i].answer) == rows[i]
  {
    if |rows| > 0 {
      SetAnswerKeepsColumns(rows[1..], id, answer);
      var r := SetAnswer(rows, id, answer);
      assert forall i :: 1 <= i < |rows| ==> r[i] == SetAnswer(rows[1..], id, answer)[i - 1] && rows[i] == rows[1..][i - 1];
    }
  }

  lemma SetAnswerWellFormed(rows: Table, id: int, answer: string)
    requires WellFormed(rows)
    ensures WellFormed(SetAnswer(rows, id, answer))
  {
    SetAnswerKeepsColumns(rows, id, answer);
    var r := SetAnswer(rows, id, answer);
    assert forall i :: 0 <= i < |r| ==> Id(r[i]) == Id(rows[i]) && r[i].parentId == rows[i].parentId;
  }

  lemma {:induction false} SetAnswerUnknownId(rows: Table, id: int, answer: string)
    requires !HasId(rows, id)
    ensures SetAnswer(rows, id, answer) == rows
  {
    if |rows| > 0 {
      SetAnswerUnknownId(rows[1..], id, answer);
    }
  }

  /** Looking up ids after a row is appended: old ids are found as before,
      the new one finds the new row. */
  lemma {:induction false} GetQuestionAppend(rows: Table, x: Row, k: int)
    requires WellFormed(rows) && x.id == NextId(rows)
    ensures GetQuestion(rows + [x], k)
         == if HasId(rows, k) then GetQuestion(rows, k) else if k == x.id then Some(x) else None
  {
    if |rows| > 0 {
      assert (rows + [x])[1..] == rows[1..] + [x];
      if rows[0].id != k {
        var t := rows[1..];
        assert WellFormed(t) by {
          forall i, j | 0 <= i < j < |t| ensures t[i].id < t[j].id {
            assert t[i] == rows[i + 1] && t[j] == rows[j + 1];
          }
        }
        assert NextId(t) <= NextId(rows);
        if NextId(t) < NextId(rows) {
          assert |t| == 0;
        }
        GetQuestionAppendSmall(t, x, k);
      }
    }
  }

  lemma {:induction false} GetQuestionAppendSmall(rows: Table, x: Row, k: int)
    requires forall i :: 0 <= i < |rows| ==> rows[i].id < x.id
    ensures GetQuestion(rows + [x], k)
         == if HasId(rows, k) then GetQuestion(rows, k) else if k == x.id then Some(x) else None
  {
    if |rows| > 0 {
      assert (rows + [x])[1..] == rows[1..] + [x];
      GetQuestionAppendSmall(rows[1..], x, k);
    }
  }

  /** A row of the table, looked up by its own id, is found. */
  lemma LookupMember(rows: Table, x: Row)
    requires WellFormed(rows) && x in rows
    ensures GetQuestion(rows, x.id) == Some(x)
  {
    var i :| 0 <= i < |rows| && rows[i] == x;
    GetQuestionIsTheRow(rows, i);
  }

  // ---------------------------------------------------------------------
  // Ancestors and descendants
  // ---------------------------------------------------------------------

  /** `a` is a proper ancestor of `x`: `x` is a row, and following parent ids
      upwards from it through existing rows reaches `a`. (The last step may
      name an id with no row: the rows under a deleted or never-inserted
      parent still have it as their parent id.) */
  ghost predicate IsAncestor(rows: Table, a: int, x: int)
    requires WellFormed(rows)
    decreases x
  {
    match GetQuestion(rows, x)
    case None => false
    case Some(r) =>
      r.parentId.Some? && (r.parentId.value == a || IsAncestor(rows, a, r.parentId.value))
  }

  ghost predicate AncestorOrSelf(rows: Table, a: int, x: int)
    requires WellFormed(rows)
  {
    a == x || IsAncestor(rows, a, x)
  }

  lemma {:induction false} AncestorSmaller(rows: Table, a: int, x: int)
    requires WellFormed(rows) && IsAncestor(rows, a, x)
    ensures a < x
    decreases x
  {
    var r := GetQuestion(rows, x).value;
    var p := r.parentId.value;
    if p != a {
      AncestorSmaller(rows, a, p);
    }
  }

  lemma {:induction false} AncestorTransitive(rows: Table, a: int, b: int, x: int)
    requires WellFormed(rows) && IsAncestor(rows, a, b) && IsAncestor(rows, b, x)
    ensures IsAncestor(rows, a, x)
    decreases x
  {
    var r := GetQuestion(rows, x).value;
    var p := r.parentId.value;
    if p != b {
      AncestorTransitive(rows, a, b, p);
    }
  }

  /** `_get_all_descendants`: for each child in table order, the child's id
      followed by all of the child's own descendants. */
  function DescendantIds(rows: Table, a: int): (ds: seq<nat>)
    requires WellFormed(rows)
    ensures forall k :: 0 <= k < |ds| ==> a < ds[k] && HasId(rows, ds[k])
    decreases NextId(rows) - a, 1
  {
    DescendantsOf(rows, a, ChildrenOf(rows, a))
  }

  /** The descendants reached through the children `cs` of `a`. */
  function DescendantsOf(rows: Table, a: int, cs: Table): (ds: seq<nat>)
    requires WellFormed(rows)
    requires forall k :: 0 <= k < |cs| ==> cs[k] in rows && cs[k].parentId == Some(a)
    ensures forall k :: 0 <= k < |ds| ==> a < ds[k] && HasId(rows, ds[k])
    decreases NextId(rows) - a, 0, |cs|
  {
    if |cs| == 0 then []
    else
      var c := cs[|cs| - 1];
      assert c in rows;
      DescendantsOf(rows, a, cs[..|cs| - 1]) + [c.id] + DescendantIds(rows, c.id)
  }

  /** `y` is the child `c` or one of its descendants. */
  ghost predicate ReachedThrough(rows: Table, c: Row, y: int)
    requires WellFormed(rows)
  {
    y == c.id || y in DescendantIds(rows, c.id)
  }

  lemma DescendantsOfMembers(rows: Table, a: int, cs: Table, y: int)
    requires WellFormed(rows)
    requires forall k :: 0 <= k < |cs| ==> cs[k] in rows && cs[k].parentId == Some(a)
    ensures y in DescendantsOf(rows, a, cs) <==> exists k :: 0 <= k < |cs| && ReachedThrough(rows, cs[k], y)
  {
    if y in DescendantsOf(rows, a, cs) {
      var k := DescendantsOfWitness(rows, a, cs, y);
    }
    forall k | 0 <= k < |cs| && ReachedThrough(rows, cs[k], y) ensures y in DescendantsOf(rows, a, cs) {
      DescendantsOfReached(rows, a, cs, k, y);
    }
  }

  /** The child through which a descendant was reached. */
  lemma {:induction false} DescendantsOfWitness(rows: Table, a: int, cs: Table, y: int) returns (k: nat)
    requires WellFormed(rows)
    requires forall k :: 0 <= k < |cs| ==> cs[k] in rows && cs[k].parentId == Some(a)
    requires y in DescendantsOf(rows, a, cs)
    ensures k < |cs| && ReachedThrough(rows, cs[k], y)
  {
    var n := |cs| - 1;
    var p := cs[..n];
    DescendantsOfLast(rows, a, cs);
    if y in DescendantsOf(rows, a, p) {
      k := DescendantsOfWitness(rows, a, p, y);
      assert p[k] == cs[k];
    } else {
      k := n;
    }
  }

  /** Everything reached through one of the children is listed. */
  lemma {:induction false} DescendantsOfReached(rows: Table, a: int, cs: Table, k: nat, y: int)
    requires WellFormed(rows)
    requires forall k :: 0 <= k < |cs| ==> cs[k] in rows && cs[k].parentId == Some(a)
    requires k < |cs| && ReachedThrough(rows, cs[k], y)
    ensures y in DescendantsOf(rows, a, cs)
  {
    var n := |cs| - 1;
    var p := cs[..n];
    DescendantsOfLast(rows, a, cs);
    if k < n {
      assert p[k] == cs[k];
      DescendantsOfReached(rows, a, p, k, y);
    }
  }

  /** Everything `_get_all_descendants` returns lies below the node. */
  lemma {:induction false} DescendantsAreBelow(rows: Table, a: int, y: int)
    requires WellFormed(rows) && y in DescendantIds(rows, a)
    ensures IsAncestor(rows, a, y)
    decreases NextId(rows) - a
  {
    var cs := ChildrenOf(rows, a);
    DescendantsOfMembers(rows, a, cs, y);
    var k :| 0 <= k < |cs| && ReachedThrough(rows, cs[k], y);
    var c := cs[k];
    LookupMember(rows, c);
    assert IsAncestor(rows, a, c.id);
    if y != c.id {
      DescendantsAreBelow(rows, c.id, y);
      AncestorTransitive(rows, a, c.id, y);
    }
  }

  /** The descendants of a descendant are descendants. */
  lemma {:induction false} DescendantsNest(rows: Table, a: int, p: int)
    requires WellFormed(rows) && p in DescendantIds(rows, a)
    ensures forall y :: y in DescendantIds(rows, p) ==> y in DescendantIds(rows, a)
    decreases NextId(rows) - a
  {
    var cs := ChildrenOf(rows, a);
    DescendantsOfMembers(rows, a, cs, p);
    var k :| 0 <= k < |cs| && ReachedThrough(rows, cs[k], p);
    if p != cs[k].id {
      DescendantsNest(rows, cs[k].id, p);
    }
    forall y | y in DescendantIds(rows, cs[k].id) ensures y in DescendantIds(rows, a) {
      DescendantsOfMembers(rows, a, cs, y);
    }
  }

  /** Everything below the node is returned by `_get_all_descendants`. */
  lemma {:induction false} BelowAreDescendants(rows: Table, a: int, x: int)
    requires WellFormed(rows) && IsAncestor(rows, a, x)
    ensures x in DescendantIds(rows, a)
    decreases x
  {
    var r := GetQuestion(rows, x).value;
    var p := r.parentId.value;
    if p == a {
      var cs := ChildrenOf(rows, a);
      var k :| 0 <= k < |cs| && cs[k] == r;
      DescendantsOfMembers(rows, a, cs, x);
    } else {
      BelowAreDescendants(rows, a, p);
      var cs := ChildrenOf(rows, p);
      var k :| 0 <= k < |cs| && cs[k] == r;
      DescendantsOfMembers(rows, p, cs, x);
      DescendantsNest(rows, a, p);
    }
  }

  /** `_get_all_descendants(a)` holds exactly the rows that have `a` as an
      ancestor. */
  lemma DescendantIdsExactly(rows: Table, a: int, x: int)
    requires WellFormed(rows)
    ensures x in DescendantIds(rows, a) <==> IsAncestor(rows, a, x)
  {
    if x in DescendantIds(rows, a) { DescendantsAreBelow(rows, a, x); }
    if IsAncestor(rows, a, x) { BelowAreDescendants(rows, a, x); }
  }

  /** Two different children of one parent have no common descendant. */
  lemma {:induction false} SiblingsDisjoint(rows: Table, a: int, c1: Row, c2: Row, y: int)
    requires WellFormed(rows) && c1 in rows && c2 in rows
    requires c1.parentId == Some(a) && c2.parentId == Some(a) && c1.id != c2.id
    ensures !(AncestorOrSelf(rows, c1.id, y) && AncestorOrSelf(rows, c2.id, y))
    decreases y
  {
    LookupMember(rows, c1);
    LookupMember(rows, c2);
    if AncestorOrSelf(rows, c1.id, y) && AncestorOrSelf(rows, c2.id, y) {
      if y == c1.id {
        if IsAncestor(rows, a, c2.id) { AncestorSmaller(rows, a, c2.id); }
        if c2.id != a && IsAncestor(rows, c2.id, a) { AncestorSmaller(rows, c2.id, a); }
        assert false;
      } else if y == c2.id {
        if c1.id != a && IsAncestor(rows, c1.id, a) { AncestorSmaller(rows, c1.id, a); }
        assert false;
      } else {
        var p := GetQuestion(rows, y).value.parentId.value;
        SiblingsDisjoint(rows, a, c1, c2, p);
        assert false;
      }
    }
  }

  /** `_get_all_descendants` lists each descendant once. */
  lemma {:induction false} DescendantIdsDistinct(rows: Table, a: int)
    requires WellFormed(rows)
    ensures Distinct(DescendantIds(rows, a))
    decreases NextId(rows) - a, 1
  {
    FilterIncreasing(rows, (x: Row) => x.parentId == Some(a), Id);
    DescendantsOfDistinct(rows, a, ChildrenOf(rows, a));
  }

  lemma {:induction false} DescendantsOfDistinct(rows: Table, a: int, cs: Table)
    requires WellFormed(rows)
    requires forall k :: 0 <= k < |cs| ==> cs[k] in rows && cs[k].parentId == Some(a)
    requires Increasing(cs, Id)
    ensures Distinct(DescendantsOf(rows, a, cs))
    decreases NextId(rows) - a, 0, |cs|
  {
    if |cs| > 0 {
      var n := |cs| - 1;
      var c := cs[n];
      var init := cs[..n];
      assert forall k :: 0 <= k < n ==> init[k] == cs[k];
      DescendantsOfDistinct(rows, a, init);
      assert c in rows;
      DescendantIdsDistinct(rows, c.id);
      var below := DescendantIds(rows, c.id);
      var q := [c.id] + below;
      DistinctConcat([c.id], below);
      var p := DescendantsOf(rows, a, init);
      forall i, j | 0 <= i < |p| && 0 <= j < |q| ensures p[i] != q[j] {
        LastSiblingApart(rows, a, cs, p[i], q[j]);
      }
      DistinctConcat(p, q);
      DescendantsOfLast(rows, a, cs);
    }
  }

  /** The descendants through the first `i + 1` children, as the loop of
      `_get_all_descendants` extends them. */
  lemma DescendantsOfStep(rows: Table, a: int, cs: Table, i: nat)
    requires WellFormed(rows) && i < |cs|
    requires forall k :: 0 <= k < |cs| ==> cs[k] in rows && cs[k].parentId == Some(a)
    ensures cs[i] in rows
    ensures DescendantsOf(rows, a, cs[..i + 1])
            == DescendantsOf(rows, a, cs[..i]) + [cs[i].id] + DescendantIds(rows, cs[i].id)
  {
    var front := cs[..i + 1];
    assert front[..i] == cs[..i] && front[i] == cs[i];
    assert forall k :: 0 <= k < |front| ==> front[k] == cs[k];
  }

  /** Nothing reached through the earlier children is the last child or
      below it. */
  lemma LastSiblingApart(rows: Table, a: int, cs: Table, y: int, z: int)
    requires WellFormed(rows) && |cs| > 0
    requires forall k :: 0 <= k < |cs| ==> cs[k] in rows && cs[k].parentId == Some(a)
    requires Increasing(cs, Id)
    requires y in DescendantsOf(rows, a, cs[..|cs| - 1])
    requires z in [cs[|cs| - 1].id] + DescendantIds(rows, cs[|cs| - 1].id)
    ensures y != z
  {
    var n := |cs| - 1;
    var c := cs[n];
    var init := cs[..n];
    assert forall k :: 0 <= k < n ==> init[k] == cs[k];
    DescendantsOfMembers(rows, a, init, y);
    var k :| 0 <= k < n && ReachedThrough(rows, init[k], y);
    if y != init[k].id { DescendantsAreBelow(rows, init[k].id, y); }
    if z != c.id { DescendantsAreBelow(rows, c.id, z); }
    assert Id(cs[k]) < Id(cs[n]);
    SiblingsDisjoint(rows, a, cs[k], c, y);
  }

  /** The descendants through `cs` end with the last child and those below it. */
  lemma DescendantsOfLast(rows: Table, a: int, cs: Table)
    requires WellFormed(rows) && |cs| > 0
    requires forall k :: 0 <= k < |cs| ==> cs[k] in rows && cs[k].parentId == Some(a)
    ensures cs[|cs| - 1] in rows
    ensures DescendantsOf(rows, a, cs)
            == DescendantsOf(rows, a, cs[..|cs| - 1]) + ([cs[|cs| - 1].id] + DescendantIds(rows, cs[|cs| - 1].id))
  {
  }

  /** The rows `cascade_delete(n)` leaves: those whose id is neither `n` nor
      one of `_get_all_descendants(n)`. */
  function CascadeDeleted(rows: Table, n: int): (r: Table)
    requires WellFormed(rows)
    ensures WellFormed(r)
  {
    DeleteIds(rows, [n] + DescendantIds(rows, n))
  }

  /** Deleting `n` removes exactly `n` and the rows below it, and leaves no
      surviving row with a parent id that named a row before the delete and
      names none after it. */
  lemma CascadeDeleteRemovesSubtree(rows: Table, n: int)
    requires WellFormed(rows)
    ensures forall x :: x in CascadeDeleted(rows, n)
                    <==> x in rows && x.id != n && !IsAncestor(rows, n, x.id)
    ensures forall x :: x in CascadeDeleted(rows, n) && x.parentId.Some? && HasId(rows, x.parentId.value)
                    ==> HasId(CascadeDeleted(rows, n), x.parentId.value)
  {
    forall x ensures x in CascadeDeleted(rows, n) <==> x in rows && x.id != n && !IsAncestor(rows, n, x.id) {
      CascadeDeletedRow(rows, n, x);
    }
    forall x | x in CascadeDeleted(rows, n) && x.parentId.Some? && HasId(rows, x.parentId.value)
      ensures HasId(CascadeDeleted(rows, n), x.parentId.value)
    {
      CascadeDeleteKeepsParent(rows, n, x);
    }
  }

  /** A row survives the cascade exactly when it is neither `n` nor below it. */
  lemma CascadeDeletedRow(rows: Table, n: int, x: Row)
    requires WellFormed(rows)
    ensures x in CascadeDeleted(rows, n) <==> x in rows && x.id != n && !IsAncestor(rows, n, x.id)
  {
    DescendantIdsExactly(rows, n, x.id);
  }

  /** The parent of a surviving row survives, if it existed. */
  lemma CascadeDeleteKeepsParent(rows: Table, n: int, x: Row)
    requires WellFormed(rows)
    requires x in CascadeDeleted(rows, n) && x.parentId.Some? && HasId(rows, x.parentId.value)
    ensures HasId(CascadeDeleted(rows, n), x.parentId.value)
  {
    var r := CascadeDeleted(rows, n);
    var p := x.parentId.value;
    var i :| 0 <= i < |rows| && rows[i].id == p;
    var y := rows[i];
    CascadeDeletedRow(rows, n, x);
    CascadeDeletedRow(rows, n, y);
    LookupMember(rows, x);
    assert IsAncestor(rows, n, x.id) == (p == n || IsAncestor(rows, n, p));
    assert y in r;
    var j :| 0 <= j < |r| && r[j] == y;
  }

  // ---------------------------------------------------------------------
  // Duplicate question texts
  // ---------------------------------------------------------------------

  function Question(r: Row): string { r.question }

  /** The ids of the rows holding question text `q`, in table order. */
  function IdsWithQuestion(rows: Table, q: string): (ids: seq<nat>)
    ensures forall id :: id in ids <==> exists i :: 0 <= i < |rows| && rows[i].id == id && rows[i].question == q
  {
    var f := Filter(rows, (x: Row) => x.question == q);
    var ids := seq(|f|, i requires 0 <= i < |f| => f[i].id);
    assert forall id :: id in ids ==> exists i :: 0 <= i < |rows| && rows[i].id == id && rows[i].question == q by {
      forall id | id in ids ensures exists i :: 0 <= i < |rows| && rows[i].id == id && rows[i].question == q {
        var k :| 0 <= k < |ids| && ids[k] == id;
        assert f[k] in rows;
      }
    }
    assert forall i :: 0 <= i < |rows| && rows[i].question == q ==> rows[i].id in ids by {
      forall i | 0 <= i < |rows| && rows[i].question == q ensures rows[i].id in ids {
        var k :| 0 <= k < |f| && f[k] == rows[i];
        assert ids[k] == rows[i].id;
      }
    }
    ids
  }

  /** SQLite's `GROUP_CONCAT(id)` with its default separator: the decimal
      ids joined by commas, in scan order. */
  function GroupConcat(ids: seq<nat>): string {
    Join(seq(|ids|, i requires 0 <= i < |ids| => NatToDecimal(ids[i])), ',')
  }

  /** `id_list.split(",")` on a concatenation gives one all-digit piece per
      id, and `int()` of each piece is that id. */
  lemma GroupConcatParses(ids: seq<nat>)
    requires |ids| >= 1
    ensures var parts := Split(GroupConcat(ids), ',');
      && |parts| == |ids|
      && forall j :: 0 <= j < |parts| ==>
           (forall m :: 0 <= m < |parts[j]| ==> IsDigit(parts[j][m]))
           && DecimalValue(parts[j]) == ids[j]
  {
    var digits := seq(|ids|, i requires 0 <= i < |ids| => NatToDecimal(ids[i]));
    assert forall k :: 0 <= k < |digits| ==> ',' !in digits[k];
    SplitJoin(digits, ',');
    forall j | 0 <= j < |ids| ensures DecimalValue(digits[j]) == ids[j] {
      DecimalRoundTrip(ids[j]);
    }
  }

  /** The rows of the query in `find_duplicate_questions`: one per question
      text held by more than one row, with its concatenated ids. `GROUP BY`
      promises no order; the model lists the groups in order of first
      appearance. */
  function DuplicateGroups(rows: Table): seq<(string, string)>
  {
    var firsts := DedupBy(rows, Question);
    var f := Filter(firsts, (x: Row) => |IdsWithQuestion(rows, x.question)| > 1);
    seq(|f|, i requires 0 <= i < |f| => (f[i].question, GroupConcat(IdsWithQuestion(rows, f[i].question))))
  }

  /** The dictionary `find_duplicate_questions` returns: each question text
      held by two or more rows, mapped to the ids of all those rows. */
  function DuplicateQuestions(rows: Table): (m: map<string, seq<nat>>)
    ensures forall q :: q in m ==> |m[q]| >= 2 && forall j :: 0 <= j < |m[q]| ==> HasId(rows, m[q][j])
  {
    map q | q in KeysOf(rows, Question) && |IdsWithQuestion(rows, q)| > 1 :: IdsWithQuestion(rows, q)
  }

  /** Each group of the query names a different question, carries the
      concatenation of that question's ids, and the groups cover exactly the
      questions held by more than one row. */
  lemma DuplicateGroupsExactly(rows: Table)
    ensures var g := DuplicateGroups(rows);
      && (forall k1, k2 :: 0 <= k1 < k2 < |g| ==> g[k1].0 != g[k2].0)
      && (forall k :: 0 <= k < |g| ==>
            |IdsWithQuestion(rows, g[k].0)| > 1 && g[k].1 == GroupConcat(IdsWithQuestion(rows, g[k].0)))
      && (forall q :: q in DuplicateQuestions(rows) <==> exists k :: 0 <= k < |g| && g[k].0 == q)
  {
    DuplicateGroupsDistinct(rows);
    DuplicateGroupsCover(rows);
    DuplicateGroupsWithin(rows);
  }

  lemma DuplicateGroupsDistinct(rows: Table)
    ensures var g := DuplicateGroups(rows);
      forall k1, k2 :: 0 <= k1 < k2 < |g| ==> g[k1].0 != g[k2].0
  {
    var firsts := DedupBy(rows, Question);
    DedupDistinct(rows, Question);
    var p := (x: Row) => |IdsWithQuestion(rows, x.question)| > 1;
    FilterDistinctKeys(firsts, p, Question);
  }

  lemma DuplicateGroupsCover(rows: Table)
    ensures var g := DuplicateGroups(rows);
      forall q :: q in DuplicateQuestions(rows) ==> exists k :: 0 <= k < |g| && g[k].0 == q
  {
    forall q | q in DuplicateQuestions(rows)
      ensures exists k :: 0 <= k < |DuplicateGroups(rows)| && DuplicateGroups(rows)[k].0 == q
    {
      var k := DuplicateGroupFound(rows, q);
    }
  }

  /** The group of the query for a question held by two or more rows. */
  lemma DuplicateGroupFound(rows: Table, q: string) returns (k: nat)
    requires q in KeysOf(rows, Question) && |IdsWithQuestion(rows, q)| > 1
    ensures k < |DuplicateGroups(rows)| && DuplicateGroups(rows)[k].0 == q
  {
    var firsts := DedupBy(rows, Question);
    QuestionsKept(rows);
    var p := (x: Row) => |IdsWithQuestion(rows, x.question)| > 1;
    var f := Filter(firsts, p);
    var m :| 0 <= m < |firsts| && Question(firsts[m]) == q;
    assert p(firsts[m]);
    assert firsts[m] in f;
    k :| 0 <= k < |f| && f[k] == firsts[m];
  }

  lemma QuestionsKept(rows: Table)
    ensures KeysOf(DedupBy(rows, Question), Question) == KeysOf(rows, Question)
  {
    DedupDistinct(rows, Question);
  }

  lemma DuplicateGroupsWithin(rows: Table)
    ensures var g := DuplicateGroups(rows);
      forall q :: (exists k :: 0 <= k < |g| && g[k].0 == q) ==> q in DuplicateQuestions(rows)
  {
    var firsts := DedupBy(rows, Question);
    DedupKeepsFirst(rows, Question);
    var p := (x: Row) => |IdsWithQuestion(rows, x.question)| > 1;
    var f := Filter(firsts, p);
    var g := DuplicateGroups(rows);
    forall q | (exists k :: 0 <= k < |g| && g[k].0 == q) ensures q in DuplicateQuestions(rows) {
      var k :| 0 <= k < |g| && g[k].0 == q;
      assert f[k] in firsts;
      var m :| 0 <= m < |firsts| && firsts[m] == f[k];
      assert Question(firsts[m]) in KeysOf(rows, Question);
    }
  }

  /** `find_duplicate_questions` names exactly the question texts that two
      or more rows hold, and lists for each the ids of all rows holding it,
      each once. */
  lemma DuplicateQuestionsExactly(rows: Table, q: string)
    requires WellFormed(rows)
    ensures q in DuplicateQuestions(rows)
        <==> exists i, j :: 0 <= i < j < |rows| && rows[i].question == q && rows[j].question == q
    ensures q in DuplicateQuestions(rows) ==>
      && Distinct(DuplicateQuestions(rows)[q])
      && forall id :: id in DuplicateQuestions(rows)[q]
                  <==> exists i :: 0 <= i < |rows| && rows[i].id == id && rows[i].question == q
  {
    IdsWithQuestionIncreasing(rows, q);
    ManyIdsIffTwoRows(rows, q);
    if exists i :: 0 <= i < |rows| && rows[i].question == q {
      var i :| 0 <= i < |rows| && rows[i].question == q;
      assert Question(rows[i]) == q;
    }
  }

  lemma IdsWithQuestionIncreasing(rows: Table, q: string)
    requires WellFormed(rows)
    ensures forall a, b :: 0 <= a < b < |IdsWithQuestion(rows, q)| ==>
      IdsWithQuestion(rows, q)[a] < IdsWithQuestion(rows, q)[b]
  {
    var f := Filter(rows, (x: Row) => x.question == q);
    FilterIncreasing(rows, (x: Row) => x.question == q, Id);
    assert forall a :: 0 <= a < |f| ==> IdsWithQuestion(rows, q)[a] == Id(f[a]);
  }

  lemma ManyIdsIffTwoRows(rows: Table, q: string)
    requires WellFormed(rows)
    ensures |IdsWithQuestion(rows, q)| > 1
        <==> exists i, j :: 0 <= i < j < |rows| && rows[i].question == q && rows[j].question == q
  {
    if exists i, j :: 0 <= i < j < |rows| && rows[i].question == q && rows[j].question == q {
      var i, j :| 0 <= i < j < |rows| && rows[i].question == q && rows[j].question == q;
      TwoRowsGiveTwoIds(rows, q, i, j);
    }
    if |IdsWithQuestion(rows, q)| > 1 {
      TwoIdsGiveTwoRows(rows, q);
    }
  }

  lemma TwoRowsGiveTwoIds(rows: Table, q: string, i: nat, j: nat)
    requires WellFormed(rows)
    requires i < j < |rows| && rows[i].question == q && rows[j].question == q
    ensures |IdsWithQuestion(rows, q)| > 1
  {
    var ids := IdsWithQuestion(rows, q);
    assert Id(rows[i]) < Id(rows[j]);
    assert rows[i].id in ids && rows[j].id in ids;
  }

  lemma TwoIdsGiveTwoRows(rows: Table, q: string)
    requires WellFormed(rows)
    requires |IdsWithQuestion(rows, q)| > 1
    ensures exists i, j :: 0 <= i < j < |rows| && rows[i].question == q && rows[j].question == q
  {
    var ids := IdsWithQuestion(rows, q);
    IdsWithQuestionIncreasing(rows, q);
    var i := RowWithQuestion(rows, q, 0);
    var j := RowWithQuestion(rows, q, 1);
    RowOrder(rows, i, j);
  }

  /** The row the `k`-th id holding question `q` was read from. */
  lemma RowWithQuestion(rows: Table, q: string, k: nat) returns (i: nat)
    requires k < |IdsWithQuestion(rows, q)|
    ensures i < |rows| && rows[i].id == IdsWithQuestion(rows, q)[k] && rows[i].question == q
  {
    var ids := IdsWithQuestion(rows, q);
    assert ids[k] in ids;
    i :| 0 <= i < |rows| && rows[i].id == ids[k] && rows[i].question == q;
  }

  /** In a well-formed table a smaller id sits earlier. */
  lemma RowOrder(rows: Table, i: nat, j: nat)
    requires WellFormed(rows) && i < |rows| && j < |rows| && rows[i].id < rows[j].id
    ensures i < j
  {
    assert j < i ==> Id(rows[j]) < Id(rows[i]);
  }
}
