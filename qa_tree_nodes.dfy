/** The in-memory question tree of qa_tree.py: the nodes `build_tree`
    assembles from the table, the priorities `calculate_priorities` gives
    them, the preorder `_flatten_tree` and the ranking of
    `get_high_priority_questions`.

    The Python nodes are objects whose `children` and `priority` fields are
    assigned after construction; here a node is a value, and each of those
    passes returns a new tree. */
module QaTreeNodes {
  import opened Wrappers
  import opened Sequences
  import opened QaTreeTable

  /** A `QuestionNode`: its row, its children in table order and its
      priority, which is 0 until priorities are computed. */
  datatype Node = Node(row: Row, children: seq<Node>, priority: int)

  /** `_build_subtree` on a row of the table: the node for the row with the
      subtrees of its children, in the order `get_children` returns them. */
  function SubtreeAt(rows: Table, r: Row): (n: Node)
    requires WellFormed(rows) && r in rows
    ensures n.row == r && n.priority == 0
    ensures |n.children| == |ChildrenOf(rows, r.id)|
    ensures forall i :: 0 <= i < |n.children| ==> n.children[i].row == ChildrenOf(rows, r.id)[i]
    decreases NextId(rows) - r.id
  {
    var cs := ChildrenOf(rows, r.id);
    Node(r, seq(|cs|, i requires 0 <= i < |cs| => SubtreeAt(rows, cs[i])), 0)
  }

  /** `_build_subtree(id)`: nothing when no row has that id. */
  function BuildSubtree(rows: Table, id: int): (n: Option<Node>)
    requires WellFormed(rows)
    ensures n.Some? <==> HasId(rows, id)
    ensures n.Some? ==> n.value.row.id == id
  {
    match GetQuestion(rows, id)
    case None => None
    case Some(r) => Some(SubtreeAt(rows, r))
  }

  /** The row `build_tree` starts from: the first parentless row in table
      order, if there is one. */
  function FirstRoot(rows: Table): (r: Option<Row>)
    ensures r.None? ==> forall i :: 0 <= i < |rows| ==> rows[i].parentId.Some?
    ensures r.Some? ==> exists i :: 0 <= i < |rows| && rows[i] == r.value && r.value.parentId.None?
                                    && forall j :: 0 <= j < i ==> rows[j].parentId.Some?
  {
    if |rows| == 0 then None
    else if rows[0].parentId.None? then Some(rows[0])
    else
      var r := FirstRoot(rows[1..]);
      assert forall i :: 1 <= i < |rows| ==> rows[i] == rows[1..][i - 1];
      if r.Some? then
        var i :| 0 <= i < |rows[1..]| && rows[1..][i] == r.value && r.value.parentId.None?
                 && forall j :: 0 <= j < i ==> rows[1..][j].parentId.Some?;
        assert rows[i + 1] == r.value;
        r
      else r
  }

  // ---------------------------------------------------------------------
  // Preorder
  // ---------------------------------------------------------------------

  /** `_flatten_tree`: the node, then the flattening of each child in turn. */
  function Flatten(n: Node): (ns: seq<Node>)
    ensures |ns| >= 1 && ns[0] == n
    decreases n, 1
  {
    [n] + FlattenAll(n.children)
  }

  function FlattenAll(ns: seq<Node>): seq<Node>
    decreases ns, 0
  {
    if |ns| == 0 then [] else Flatten(ns[0]) + FlattenAll(ns[1..])
  }

  lemma {:induction false} FlattenAllSnoc(ns: seq<Node>, m: Node)
    ensures FlattenAll(ns + [m]) == FlattenAll(ns) + Flatten(m)
  {
    if |ns| == 0 {
      assert FlattenAll([m]) == Flatten(m) + FlattenAll([]);
    } else {
      assert (ns + [m])[1..] == ns[1..] + [m];
      FlattenAllSnoc(ns[1..], m);
    }
  }

  /** The ids of a list of nodes, in order. */
  function IdsOf(ns: seq<Node>): (ids: seq<nat>)
    ensures |ids| == |ns|
  {
    seq(|ns|, i requires 0 <= i < |ns| => ns[i].row.id)
  }

  lemma IdsOfConcat(a: seq<Node>, b: seq<Node>)
    ensures IdsOf(a + b) == IdsOf(a) + IdsOf(b)
  {
  }

  /** The tree built at a row holds exactly the row and its descendants,
      in the order `_get_all_descendants` lists them: every row below the
      node appears once, the node first. */
  lemma {:induction false} SubtreePreorder(rows: Table, r: Row)
    requires WellFormed(rows) && r in rows
    ensures IdsOf(Flatten(SubtreeAt(rows, r))) == [r.id] + DescendantIds(rows, r.id)
    decreases NextId(rows) - r.id, 1
  {
    var n := SubtreeAt(rows, r);
    SubtreeChildren(rows, r);
    SubtreesPreorder(rows, r.id, ChildrenOf(rows, r.id), n.children);
    IdsOfConcat([n], FlattenAll(n.children));
    assert IdsOf([n]) == [r.id];
  }

  lemma SubtreeChildren(rows: Table, r: Row)
    requires WellFormed(rows) && r in rows
    ensures var cs := ChildrenOf(rows, r.id);
      && (forall k :: 0 <= k < |cs| ==> cs[k] in rows && cs[k].parentId == Some(r.id))
      && |SubtreeAt(rows, r).children| == |cs|
      && forall k :: 0 <= k < |cs| ==> SubtreeAt(rows, r).children[k] == SubtreeAt(rows, cs[k])
  {
  }

  lemma {:induction false} SubtreesPreorder(rows: Table, a: int, cs: Table, ns: seq<Node>)
    requires WellFormed(rows)
    requires forall k :: 0 <= k < |cs| ==> cs[k] in rows && cs[k].parentId == Some(a)
    requires |ns| == |cs| && forall k :: 0 <= k < |cs| ==> ns[k] == SubtreeAt(rows, cs[k])
    ensures IdsOf(FlattenAll(ns)) == DescendantsOf(rows, a, cs)
    decreases NextId(rows) - a, 0, |cs|
  {
    if |cs| > 0 {
      var n := |cs| - 1;
      var c := cs[n];
      var front := ns[..n];
      assert c in rows && ns[n] == SubtreeAt(rows, c);
      assert IdsOf(FlattenAll(front)) == DescendantsOf(rows, a, cs[..n]) by {
        SubtreesPreorder(rows, a, cs[..n], front);
      }
      assert IdsOf(Flatten(ns[n])) == [c.id] + DescendantIds(rows, c.id) by {
        SubtreePreorder(rows, c);
      }
      IdsOfFlattenAllLast(ns);
      DescendantsOfLast(rows, a, cs);
    }
  }

  /** The ids in the preorder of a list of trees end with those of the last tree. */
  lemma IdsOfFlattenAllLast(ns: seq<Node>)
    requires |ns| > 0
    ensures IdsOf(FlattenAll(ns)) == IdsOf(FlattenAll(ns[..|ns| - 1])) + IdsOf(Flatten(ns[|ns| - 1]))
  {
    var n := |ns| - 1;
    FlattenAllLast(ns);
    IdsOfConcat(FlattenAll(ns[..n]), Flatten(ns[n]));
  }

  lemma {:induction false} FlattenAllLast(ns: seq<Node>)
    requires |ns| > 0
    ensures FlattenAll(ns) == FlattenAll(ns[..|ns| - 1]) + Flatten(ns[|ns| - 1])
  {
    var n := |ns| - 1;
    if n == 0 {
      assert FlattenAll(ns[1..]) == [];
      assert FlattenAll(ns[..0]) == [];
    } else {
      var t := ns[1..];
      FlattenAllLast(t);
      assert t[..|t| - 1] == ns[..n][1..] && t[|t| - 1] == ns[n];
      assert ns[..n][0] == ns[0];
    }
  }

  /** So the flattening of a built tree names each of its rows once. */
  lemma SubtreeIdsDistinct(rows: Table, r: Row)
    requires WellFormed(rows) && r in rows
    ensures Distinct(IdsOf(Flatten(SubtreeAt(rows, r))))
  {
    SubtreePreorder(rows, r);
    DescendantIdsDistinct(rows, r.id);
    var below := DescendantIds(rows, r.id);
    DistinctConcat([r.id], below);
  }

  // ---------------------------------------------------------------------
  // Priorities
  // ---------------------------------------------------------------------

  /** `_calculate_subtree_priority`: a leaf gets 1, any other node the sum
      of its children's priorities, computed bottom-up. */
  function Prioritized(n: Node): (p: Node)
    ensures p.row == n.row && |p.children| == |n.children|
    decreases n, 1
  {
    if |n.children| == 0 then n.(priority := 1)
    else
      var cs := PrioritizedAll(n.children);
      n.(children := cs, priority := SumPriorities(cs))
  }

  function PrioritizedAll(ns: seq<Node>): (ps: seq<Node>)
    ensures |ps| == |ns|
    decreases ns, 0
  {
    if |ns| == 0 then [] else [Prioritized(ns[0])] + PrioritizedAll(ns[1..])
  }

  function SumPriorities(ns: seq<Node>): int
  {
    if |ns| == 0 then 0 else ns[0].priority + SumPriorities(ns[1..])
  }

  predicate IsLeaf(n: Node) {
    |n.children| == 0
  }

  function CountLeaves(ns: seq<Node>): nat
  {
    if |ns| == 0 then 0 else (if IsLeaf(ns[0]) then 1 else 0) + CountLeaves(ns[1..])
  }

  /** The number of leaves in the subtree at `n`. */
  function LeafCount(n: Node): nat
  {
    CountLeaves(Flatten(n))
  }

  lemma {:induction false} CountLeavesConcat(a: seq<Node>, b: seq<Node>)
    ensures CountLeaves(a + b) == CountLeaves(a) + CountLeaves(b)
  {
    if |a| > 0 {
      assert (a + b)[0] == a[0] && (a + b)[1..] == a[1..] + b;
      CountLeavesConcat(a[1..], b);
    } else {
      assert a + b == b;
    }
  }

  /** The priority `calculate_priorities` gives a node is the number of
      leaves below it (itself, for a leaf). */
  lemma {:induction false} PriorityIsLeafCount(n: Node)
    ensures Prioritized(n).priority == LeafCount(n)
    decreases n, 1
  {
    CountLeavesConcat([n], FlattenAll(n.children));
    if |n.children| > 0 {
      PrioritiesSumLeafCounts(n.children);
    }
  }

  lemma {:induction false} PrioritiesSumLeafCounts(ns: seq<Node>)
    ensures SumPriorities(PrioritizedAll(ns)) == CountLeaves(FlattenAll(ns))
    decreases ns, 0
  {
    if |ns| > 0 {
      PriorityIsLeafCount(ns[0]);
      PrioritiesSumLeafCounts(ns[1..]);
      CountLeavesConcat(Flatten(ns[0]), FlattenAll(ns[1..]));
    }
  }

  /** Computing priorities changes priorities only: the preorder of rows
      and the leaves stay as they were. */
  lemma {:induction false} PrioritizedKeepsShape(n: Node)
    ensures IdsOf(Flatten(Prioritized(n))) == IdsOf(Flatten(n))
    ensures LeafCount(Prioritized(n)) == LeafCount(n)
    decreases n, 1
  {
    var p := Prioritized(n);
    if |n.children| > 0 {
      PrioritizedAllKeepsShape(n.children);
    }
    IdsOfConcat([n], FlattenAll(n.children));
    IdsOfConcat([p], FlattenAll(p.children));
    CountLeavesConcat([n], FlattenAll(n.children));
    CountLeavesConcat([p], FlattenAll(p.children));
  }

  lemma {:induction false} PrioritizedAllKeepsShape(ns: seq<Node>)
    ensures IdsOf(FlattenAll(PrioritizedAll(ns))) == IdsOf(FlattenAll(ns))
    ensures CountLeaves(FlattenAll(PrioritizedAll(ns))) == CountLeaves(FlattenAll(ns))
    decreases ns, 0
  {
    if |ns| > 0 {
      var ps := PrioritizedAll(ns);
      PrioritizedKeepsShape(ns[0]);
      PrioritizedAllKeepsShape(ns[1..]);
      assert ps[1..] == PrioritizedAll(ns[1..]);
      IdsOfConcat(Flatten(ns[0]), FlattenAll(ns[1..]));
      IdsOfConcat(Flatten(ps[0]), FlattenAll(ps[1..]));
      CountLeavesConcat(Flatten(ns[0]), FlattenAll(ns[1..]));
      CountLeavesConcat(Flatten(ps[0]), FlattenAll(ps[1..]));
    }
  }

  /** Computing priorities twice gives what computing them once gives:
      `calculate_priorities` on a tree it already ran on changes nothing. */
  lemma {:induction false} PrioritizedIdempotent(n: Node)
    ensures Prioritized(Prioritized(n)) == Prioritized(n)
    decreases n, 1
  {
    if |n.children| > 0 {
      PrioritizedAllIdempotent(n.children);
    }
  }

  lemma {:induction false} PrioritizedAllIdempotent(ns: seq<Node>)
    ensures PrioritizedAll(PrioritizedAll(ns)) == PrioritizedAll(ns)
    decreases ns, 0
  {
    if |ns| > 0 {
      var ps := PrioritizedAll(ns);
      assert ps[0] == Prioritized(ns[0]) && ps[1..] == PrioritizedAll(ns[1..]);
      PrioritizedIdempotent(ns[0]);
      PrioritizedAllIdempotent(ns[1..]);
    }
  }

  /** The rows of a list of nodes, in order. */
  function RowsOf(ns: seq<Node>): (rs: seq<Row>)
    ensures |rs| == |ns|
  {
    seq(|ns|, i requires 0 <= i < |ns| => ns[i].row)
  }

  lemma RowsOfConcat(a: seq<Node>, b: seq<Node>)
    ensures RowsOf(a + b) == RowsOf(a) + RowsOf(b)
  {
  }

  /** Computing priorities leaves the rows of the preorder as they were. */
  lemma {:induction false} PrioritizedKeepsRows(n: Node)
    ensures RowsOf(Flatten(Prioritized(n))) == RowsOf(Flatten(n))
    decreases n, 1
  {
    var p := Prioritized(n);
    if |n.children| > 0 {
      PrioritizedAllKeepsRows(n.children);
    }
    RowsOfConcat([n], FlattenAll(n.children));
    RowsOfConcat([p], FlattenAll(p.children));
  }

  lemma {:induction false} PrioritizedAllKeepsRows(ns: seq<Node>)
    ensures RowsOf(FlattenAll(PrioritizedAll(ns))) == RowsOf(FlattenAll(ns))
    decreases ns, 0
  {
    if |ns| > 0 {
      var ps := PrioritizedAll(ns);
      PrioritizedKeepsRows(ns[0]);
      PrioritizedAllKeepsRows(ns[1..]);
      assert ps[1..] == PrioritizedAll(ns[1..]);
      RowsOfConcat(Flatten(ns[0]), FlattenAll(ns[1..]));
      RowsOfConcat(Flatten(ps[0]), FlattenAll(ps[1..]));
    }
  }

  /** A node in the preorder of a list of trees is in the preorder of one
      of them. */
  lemma {:induction false} InFlattenAll(ns: seq<Node>, x: Node) returns (i: nat)
    requires x in FlattenAll(ns)
    ensures i < |ns| && x in Flatten(ns[i])
  {
    if x in Flatten(ns[0]) {
      i := 0;
    } else {
      var j := InFlattenAll(ns[1..], x);
      i := j + 1;
    }
  }

  /** Every node of a tree built from the table carries a row of the
      table. */
  lemma {:induction false} SubtreeRowsIn(rows: Table, r: Row, x: Node)
    requires WellFormed(rows) && r in rows
    requires x in Flatten(SubtreeAt(rows, r))
    ensures x.row in rows
    decreases NextId(rows) - r.id
  {
    var n := SubtreeAt(rows, r);
    if x != n {
      assert x in FlattenAll(n.children);
      var i := InFlattenAll(n.children, x);
      var cs := ChildrenOf(rows, r.id);
      SubtreeChildren(rows, r);
      assert cs[i] in rows && cs[i].parentId == Some(r.id);
      SubtreeRowsIn(rows, cs[i], x);
    }
  }

  /** Every node of a tree whose priorities were computed carries the
      number of leaves below it as its priority. */
  ghost predicate PrioritiesCountLeaves(n: Node)
    decreases n
  {
    && n.priority == LeafCount(n)
    && forall i :: 0 <= i < |n.children| ==> PrioritiesCountLeaves(n.children[i])
  }

  lemma {:induction false} PrioritizedCountsLeaves(n: Node)
    ensures PrioritiesCountLeaves(Prioritized(n))
    decreases n
  {
    var p := Prioritized(n);
    PriorityIsLeafCount(n);
    PrioritizedKeepsShape(n);
    forall i | 0 <= i < |p.children| ensures PrioritiesCountLeaves(p.children[i]) {
      PrioritizedAllAt(n.children, i);
      PrioritizedCountsLeaves(n.children[i]);
    }
  }

  lemma {:induction false} PrioritizedAllAt(ns: seq<Node>, i: nat)
    requires i < |ns|
    ensures PrioritizedAll(ns)[i] == Prioritized(ns[i])
  {
    if i > 0 {
      PrioritizedAllAt(ns[1..], i - 1);
    }
  }

  /** Every tree has a leaf, so every priority is at least 1. */
  lemma {:induction false} LeafCountPositive(n: Node)
    ensures LeafCount(n) >= 1
    decreases n
  {
    CountLeavesConcat([n], FlattenAll(n.children));
    if |n.children| > 0 {
      LeafCountPositive(n.children[0]);
      assert FlattenAll(n.children) == Flatten(n.children[0]) + FlattenAll(n.children[1..]);
      CountLeavesConcat(Flatten(n.children[0]), FlattenAll(n.children[1..]));
    }
  }

  /** A parent's priority is at least each child's. */
  lemma ChildPriorityBounded(n: Node, i: nat)
    requires PrioritiesCountLeaves(n) && i < |n.children|
    ensures 1 <= n.children[i].priority <= n.priority
  {
    LeafCountPositive(n.children[i]);
    ChildLeavesWithin(n.children, i);
    CountLeavesConcat([n], FlattenAll(n.children));
  }

  lemma {:induction false} ChildLeavesWithin(ns: seq<Node>, i: nat)
    requires i < |ns|
    ensures LeafCount(ns[i]) <= CountLeaves(FlattenAll(ns))
  {
    CountLeavesConcat(Flatten(ns[0]), FlattenAll(ns[1..]));
    if i > 0 {
      ChildLeavesWithin(ns[1..], i - 1);
    }
  }

  /** Each node in the preorder of a tree is the root of one of its
      subtrees, so what holds of every subtree holds of it. */
  lemma {:induction false} FlattenedSubtrees(n: Node, x: Node)
    requires PrioritiesCountLeaves(n) && x in Flatten(n)
    ensures PrioritiesCountLeaves(x)
    decreases n, 1
  {
    if x != n {
      FlattenedSubtreesAll(n.children, x);
    }
  }

  lemma {:induction false} FlattenedSubtreesAll(ns: seq<Node>, x: Node)
    requires forall i :: 0 <= i < |ns| ==> PrioritiesCountLeaves(ns[i])
    requires x in FlattenAll(ns)
    ensures PrioritiesCountLeaves(x)
    decreases ns, 0
  {
    if x in Flatten(ns[0]) {
      FlattenedSubtrees(ns[0], x);
    } else {
      FlattenedSubtreesAll(ns[1..], x);
    }
  }

  // ---------------------------------------------------------------------
  // Ranking
  // ---------------------------------------------------------------------

  function PriorityOf(n: Node): int { n.priority }

  /** The ranking `get_high_priority_questions` returns once the tree has
      priorities: the preorder sorted by decreasing priority, with equal
      priorities left in preorder, cut to `limit` as `[:limit]` does. */
  function Ranked(root: Node, limit: int): (r: seq<Node>)
    ensures |r| <= |Flatten(root)| && (limit >= 0 ==> |r| <= limit)
    ensures NonIncreasing(r, PriorityOf)
  {
    TopByKey(Flatten(root), PriorityOf, limit);
    Prefix(SortDesc(Flatten(root), PriorityOf), limit)
  }

  /** The ranking is in order, holds nodes of the tree only, never leaves
      out a node with a higher priority than one it keeps, keeps preorder
      among equal priorities, and has `limit` nodes or all of them. */
  lemma RankedFacts(root: Node, limit: int)
    ensures var r := Ranked(root, limit); var f := Flatten(root);
      && (limit >= 0 ==> |r| == if limit <= |f| then limit else |f|)
      && NonIncreasing(r, PriorityOf)
      && multiset(r) <= multiset(f)
      && (forall i, y :: 0 <= i < |r| && y in multiset(f) - multiset(r) ==> PriorityOf(y) <= PriorityOf(r[i]))
      && (forall k :: |WithKey(r, PriorityOf, k)| <= |WithKey(f, PriorityOf, k)|
                      && WithKey(r, PriorityOf, k) == WithKey(f, PriorityOf, k)[..|WithKey(r, PriorityOf, k)|])
  {
    TopByKey(Flatten(root), PriorityOf, limit);
  }

  /** In a ranking of a tree with computed priorities, every node's
      priority is the number of leaves below it, and at least 1. */
  lemma RankedPriorities(n: Node, limit: int)
    ensures forall x :: x in Ranked(Prioritized(n), limit) ==> x.priority == LeafCount(x) >= 1
  {
    var root := Prioritized(n);
    PrioritizedCountsLeaves(n);
    forall x | x in Ranked(root, limit) ensures x.priority == LeafCount(x) >= 1 {
      TopFrom(Flatten(root), PriorityOf, limit, x);
      FlattenedSubtrees(root, x);
      LeafCountPositive(x);
    }
  }
}
