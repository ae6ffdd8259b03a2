/**
 * Back-references on AST nodes (pycc/asttools/references.py).
 *
 * Python stores `parent`, `previous` and `next` as attributes on the node
 * objects. Here each attribute is a map from node position to the referenced
 * node's position (None for Python's None); a position missing from the map is
 * a node that does not have the attribute at all. The passes take the
 * attribute maps of the tree and return them updated.
 */
module References {
  import opened Wrappers
  import opened Syntax

  /** One attribute of every node of a tree: position -> referenced position */
  type Links = map<Path, Option<Path>>

  /** The `parent` the pass gives the node at q: the node whose children list holds it. */
  function ParentOf(q: Path): Option<Path>
  {
    if q == [] then None else Some(Up(q))
  }

  /** The `previous` the pass gives the child at q: the sibling before it, if any. */
  function PreviousOf(q: Path): Option<Path>
    requires q != []
  {
    if q[|q| - 1] == 0 then None else Some(Up(q) + [q[|q| - 1] - 1])
  }

  /** The `next` the pass gives the child at q: the sibling after it, if any. */
  function NextOf(root: Node, q: Path): Option<Path>
    requires q != [] && ValidPath(root, Up(q))
  {
    if q[|q| - 1] + 1 >= |At(root, Up(q)).kids| then None else Some(Up(q) + [q[|q| - 1] + 1])
  }

  /** Some position on the work-list is a prefix of q (q is the node or one of its descendants). */
  ghost predicate Covered(nodes: seq<Path>, q: Path) {
    exists k :: 0 <= k < |nodes| && IsPrefix(nodes[k], q)
  }

  /** Some position on the work-list is a strict prefix of q (q is below a node still to be processed). */
  ghost predicate Below(nodes: seq<Path>, q: Path) {
    exists k :: 0 <= k < |nodes| && IsStrictPrefix(nodes[k], q)
  }

  /** Total size of the subtrees still on the work-list. */
  function Pending(root: Node, nodes: seq<Path>): nat
    requires forall k :: 0 <= k < |nodes| ==> ValidPath(root, nodes[k])
  {
    if nodes == [] then 0 else Pending(root, nodes[..|nodes| - 1]) + Size(At(root, nodes[|nodes| - 1]))
  }

  lemma {:induction false} PendingPush(root: Node, nodes: seq<Path>, current: Path, i: nat)
    requires forall k :: 0 <= k < |nodes| ==> ValidPath(root, nodes[k])
    requires ValidPath(root, current) && i < |At(root, current).kids|
    ensures ValidPath(root, current + [i]) && At(root, current + [i]) == At(root, current).kids[i]
    ensures Pending(root, nodes + [current + [i]]) == Pending(root, nodes) + Size(At(root, current).kids[i])
  {
    AtSnoc(root, current, i);
    assert (nodes + [current + [i]])[..|nodes|] == nodes;
  }

  /** A node strictly below `current` lies below or at one of current's children. */
  lemma ChildPrefix(root: Node, current: Path, q: Path)
    requires ValidPath(root, q) && ValidPath(root, current) && IsStrictPrefix(current, q)
    ensures q[|current|] < |At(root, current).kids|
    ensures IsPrefix(current + [q[|current|]], q)
  {
    ValidPrefix(root, q, |current|);
    assert q[..|current| + 1] == q[..|current|] + [q[|current|]];
  }

  /** After popping `current` and pushing its children, everything it covered is covered by them. */
  lemma CoveredAfterPop(root: Node, popped0: seq<Path>, nodes0: seq<Path>, current: Path, nodes: seq<Path>)
    requires |nodes0| > 0 && current == nodes0[|nodes0| - 1] && ValidPath(root, current)
    requires nodes == nodes0[..|nodes0| - 1] + seq(|At(root, current).kids|, j => current + [j])
    requires forall q :: ValidPath(root, q) ==> q in popped0 || Covered(nodes0, q)
    ensures forall q :: ValidPath(root, q) ==> q in popped0 + [current] || Covered(nodes, q)
  {
    var rest := nodes0[..|nodes0| - 1];
    forall q | ValidPath(root, q) && q !in popped0 + [current]
      ensures Covered(nodes, q)
    {
      var k :| 0 <= k < |nodes0| && IsPrefix(nodes0[k], q);
      if k < |rest| {
        assert nodes[k] == nodes0[k];
      } else {
        assert q != current && q[..|current|] == current;
        assert |q| > |current|;
        ChildPrefix(root, current, q);
        var j := q[|current|];
        assert nodes[|rest| + j] == current + [j];
      }
    }
  }

  /** After the children of `current` got their parent, only nodes below the work-list still lack one. */
  lemma BelowAfterPop(root: Node, rest: seq<Path>, current: Path, nodes: seq<Path>, result: Links)
    requires ValidPath(root, current)
    requires nodes == rest + seq(|At(root, current).kids|, j => current + [j])
    requires ChildrenLinked(result, current, |At(root, current).kids|)
    requires LinkedOutside(root, rest, result, current)
    ensures forall q :: ValidPath(root, q) ==> Below(nodes, q) || (q in result && result[q] == ParentOf(q))
  {
    forall q | ValidPath(root, q)
      ensures Below(nodes, q) || (q in result && result[q] == ParentOf(q))
    {
      if IsStrictPrefix(current, q) {
        ChildPrefix(root, current, q);
        var j := q[|current|];
        assert nodes[|rest| + j] == current + [j];
        if |q| == |current| + 1 {
          assert q == current + [j];
        } else {
          assert IsStrictPrefix(nodes[|rest| + j], q);
        }
      } else if !(q in result && result[q] == ParentOf(q)) {
        var k :| 0 <= k < |rest| && IsStrictPrefix(rest[k], q);
        assert nodes[k] == rest[k];
      }
    }
  }

  /** The first i children of `current` have `current` as their parent. */
  ghost predicate ChildrenLinked(result: Links, current: Path, i: nat) {
    forall j :: 0 <= j < i ==> current + [j] in result && result[current + [j]] == Some(current)
  }

  /** Positions outside the tree keep the attribute they had (or their lack of one). */
  ghost predicate Untouched(root: Node, result: Links, before: Links) {
    && (forall q :: !ValidPath(root, q) ==> (q in result <==> q in before))
    && (forall q :: !ValidPath(root, q) && q in before ==> result[q] == before[q])
  }

  /** Every node not below `current` is below the rest of the work-list or has its parent. */
  ghost predicate LinkedOutside(root: Node, rest: seq<Path>, result: Links, current: Path) {
    forall q :: ValidPath(root, q) && !IsStrictPrefix(current, q) ==>
      Below(rest, q) || (q in result && result[q] == ParentOf(q))
  }

  /** Popping `current` off the work-list leaves every other node below the rest or linked. */
  lemma PopLinked(root: Node, nodes0: seq<Path>, result: Links)
    requires |nodes0| > 0
    requires forall q :: ValidPath(root, q) ==> Below(nodes0, q) || (q in result && result[q] == ParentOf(q))
    ensures LinkedOutside(root, nodes0[..|nodes0| - 1], result, nodes0[|nodes0| - 1])
  {
    var rest := nodes0[..|nodes0| - 1];
    forall q | ValidPath(root, q) && !IsStrictPrefix(nodes0[|nodes0| - 1], q) && !(q in result && result[q] == ParentOf(q))
      ensures Below(rest, q)
    {
      var k :| 0 <= k < |nodes0| && IsStrictPrefix(nodes0[k], q);
      assert rest[k] == nodes0[k];
    }
  }

  /** Pushing child i of `current` extends the pushed-children suffix of the work-list. */
  lemma PushChild(root: Node, rest: seq<Path>, nodes: seq<Path>, current: Path, i: nat)
    requires ValidPath(root, current) && i < |At(root, current).kids|
    requires nodes == rest + seq(i, j => current + [j])
    requires forall k :: 0 <= k < |nodes| ==> ValidPath(root, nodes[k])
    ensures nodes + [current + [i]] == rest + seq(i + 1, j => current + [j])
    ensures forall k :: 0 <= k < |nodes| + 1 ==> ValidPath(root, (nodes + [current + [i]])[k])
  {
    AtSnoc(root, current, i);
    assert seq(i + 1, j => current + [j]) == seq(i, j => current + [j]) + [current + [i]];
  }

  lemma SumSizesSnoc(s: seq<Node>, i: nat)
    requires i < |s|
    ensures SumSizes(s[..i + 1]) == SumSizes(s[..i]) + Size(s[i])
  {
    assert s[..i + 1][..i] == s[..i];
  }

  /** Setting the parent of child i of `current` keeps the inner-loop invariants. */
  lemma LinkChild(root: Node, rest: seq<Path>, parent: Links, result: Links, current: Path, i: nat)
    requires ValidPath(root, current) && i < |At(root, current).kids|
    requires ChildrenLinked(result, current, i)
    requires LinkedOutside(root, rest, result, current)
    requires Untouched(root, result, parent)
    ensures ChildrenLinked(result[current + [i] := Some(current)], current, i + 1)
    ensures LinkedOutside(root, rest, result[current + [i] := Some(current)], current)
    ensures Untouched(root, result[current + [i] := Some(current)], parent)
  {
    var c := current + [i];
    AtSnoc(root, current, i);
    assert IsStrictPrefix(current, c) by {
      assert c[..|current|] == current;
    }
    var r := result[c := Some(current)];
    forall j | 0 <= j < i + 1
      ensures current + [j] in r && r[current + [j]] == Some(current)
    {
      if j < i {
        assert (current + [j])[|current|] != c[|current|];
      }
    }
  }

  /** Pushing child i in LinkChildren's loop adds that child's size to the pending total. */
  lemma PendingStep(root: Node, rest: seq<Path>, current: Path, i: nat, nodes: seq<Path>)
    requires ValidPath(root, current) && i < |At(root, current).kids|
    requires forall k :: 0 <= k < |rest| ==> ValidPath(root, rest[k])
    requires forall k :: 0 <= k < |nodes| ==> ValidPath(root, nodes[k])
    requires forall k :: 0 <= k < |nodes| + 1 ==> ValidPath(root, (nodes + [current + [i]])[k])
    requires Pending(root, nodes) == Pending(root, rest) + SumSizes(At(root, current).kids[..i])
    ensures Pending(root, nodes + [current + [i]]) == Pending(root, rest) + SumSizes(At(root, current).kids[..i + 1])
  {
    PendingPush(root, nodes, current, i);
    SumSizesSnoc(At(root, current).kids, i);
  }

  /**
   * The inner loop of add_parent_references: push every child of `current`
   * onto the work-list and set its parent to `current`.
   */
  method LinkChildren(root: Node, parent: Links, rest: seq<Path>, current: Path, result0: Links)
    returns (nodes: seq<Path>, result: Links)
    requires ValidPath(root, current)
    requires forall k :: 0 <= k < |rest| ==> ValidPath(root, rest[k])
    requires LinkedOutside(root, rest, result0, current)
    requires Untouched(root, result0, parent)
    ensures nodes == rest + seq(|At(root, current).kids|, j => current + [j])
    ensures forall k :: 0 <= k < |nodes| ==> ValidPath(root, nodes[k])
    ensures Pending(root, nodes) == Pending(root, rest) + SumSizes(At(root, current).kids)
    ensures ChildrenLinked(result, current, |At(root, current).kids|)
    ensures LinkedOutside(root, rest, result, current)
    ensures Untouched(root, result, parent)
  {
    nodes, result := rest, result0;
    var children := At(root, current).kids;
    for i := 0 to |children|
      invariant nodes == rest + seq(i, j => current + [j])
      invariant forall k :: 0 <= k < |nodes| ==> ValidPath(root, nodes[k])
      invariant Pending(root, nodes) == Pending(root, rest) + SumSizes(children[..i])
      invariant ChildrenLinked(result, current, i)
      invariant LinkedOutside(root, rest, result, current)
      invariant Untouched(root, result, parent)
    {
      nodes, result := LinkNext(root, parent, rest, current, i, nodes, result);
    }
    assert children[..|children|] == children;
  }

  /** One turn of the loop in LinkChildren: child i is pushed and given `current` as its parent. */
  method LinkNext(root: Node, parent: Links, rest: seq<Path>, current: Path, i: nat, nodes0: seq<Path>, result0: Links)
    returns (nodes: seq<Path>, result: Links)
    requires ValidPath(root, current) && i < |At(root, current).kids|
    requires forall k :: 0 <= k < |rest| ==> ValidPath(root, rest[k])
    requires nodes0 == rest + seq(i, j => current + [j])
    requires forall k :: 0 <= k < |nodes0| ==> ValidPath(root, nodes0[k])
    requires Pending(root, nodes0) == Pending(root, rest) + SumSizes(At(root, current).kids[..i])
    requires ChildrenLinked(result0, current, i)
    requires LinkedOutside(root, rest, result0, current)
    requires Untouched(root, result0, parent)
    ensures nodes == rest + seq(i + 1, j => current + [j])
    ensures forall k :: 0 <= k < |nodes| ==> ValidPath(root, nodes[k])
    ensures Pending(root, nodes) == Pending(root, rest) + SumSizes(At(root, current).kids[..i + 1])
    ensures ChildrenLinked(result, current, i + 1)
    ensures LinkedOutside(root, rest, result, current)
    ensures Untouched(root, result, parent)
  {
    PushChild(root, rest, nodes0, current, i);
    PendingStep(root, rest, current, i, nodes0);
    LinkChild(root, rest, parent, result0, current, i);
    nodes := nodes0 + [current + [i]];
    result := result0[current + [i] := Some(current)];
  }

  /**
   * The state of add_parent_references between pops: every popped node and
   * every node on the work-list is in the tree, and each node of the tree is
   * popped or still below the work-list; its parent link is set unless it
   * is still below the work-list; nothing outside the tree is touched.
   */
  ghost predicate Walking(root: Node, parent: Links, nodes: seq<Path>, popped: seq<Path>, result: Links) {
    Reached(root, nodes, popped) && ParentsSet(root, parent, nodes, result)
  }

  /** The walk's progress: work-list and pops in the tree, every node popped or still below the work-list. */
  ghost predicate Reached(root: Node, nodes: seq<Path>, popped: seq<Path>) {
    && (forall k :: 0 <= k < |nodes| ==> ValidPath(root, nodes[k]))
    && (forall k :: 0 <= k < |popped| ==> ValidPath(root, popped[k]))
    && |popped| + Pending(root, nodes) == Size(root)
    && (forall q :: ValidPath(root, q) ==> q in popped || Covered(nodes, q))
  }

  /** The links set so far: every node not below the work-list has its parent, nothing outside the tree changed. */
  ghost predicate ParentsSet(root: Node, parent: Links, nodes: seq<Path>, result: Links) {
    && (forall q :: ValidPath(root, q) ==> Below(nodes, q) || (q in result && result[q] == ParentOf(q)))
    && Untouched(root, result, parent)
  }

  /** One turn of the loop in AddParentReferences: pop a node and link its children. */
  method ParentNext(root: Node, parent: Links, nodes0: seq<Path>, ghost popped0: seq<Path>, result0: Links)
    returns (nodes: seq<Path>, ghost popped: seq<Path>, result: Links)
    requires |nodes0| > 0 && Walking(root, parent, nodes0, popped0, result0)
    ensures Walking(root, parent, nodes, popped, result)
    ensures popped == popped0 + [nodes0[|nodes0| - 1]]
    ensures Pending(root, nodes) < Pending(root, nodes0)
  {
    var current := nodes0[|nodes0| - 1];
    var rest := nodes0[..|nodes0| - 1];
    popped := popped0 + [current];
    PopLinked(root, nodes0, result0);
    nodes, result := LinkChildren(root, parent, rest, current, result0);
    WalkingAfterPop(root, parent, nodes0, popped0, rest, current, nodes, popped, result);
  }

  /** What LinkChildren leaves behind restores the walk's state with the last node popped. */
  lemma WalkingAfterPop(root: Node, parent: Links, nodes0: seq<Path>, popped0: seq<Path>, rest: seq<Path>, current: Path,
                        nodes: seq<Path>, popped: seq<Path>, result: Links)
    requires |nodes0| > 0 && Reached(root, nodes0, popped0)
    requires rest == nodes0[..|nodes0| - 1] && current == nodes0[|nodes0| - 1] && popped == popped0 + [current]
    requires ValidPath(root, current)
    requires nodes == rest + seq(|At(root, current).kids|, j => current + [j])
    requires forall k :: 0 <= k < |nodes| ==> ValidPath(root, nodes[k])
    requires Pending(root, nodes) == Pending(root, rest) + SumSizes(At(root, current).kids)
    requires ChildrenLinked(result, current, |At(root, current).kids|)
    requires LinkedOutside(root, rest, result, current)
    requires Untouched(root, result, parent)
    ensures Walking(root, parent, nodes, popped, result)
    ensures Pending(root, nodes) < Pending(root, nodes0)
  {
    ReachedAfterPop(root, nodes0, popped0, nodes);
    BelowAfterPop(root, rest, current, nodes, result);
  }

  /** Popping the last node and pushing its children keeps the walk's progress, one node further. */
  lemma ReachedAfterPop(root: Node, nodes0: seq<Path>, popped0: seq<Path>, nodes: seq<Path>)
    requires |nodes0| > 0 && Reached(root, nodes0, popped0)
    requires nodes == nodes0[..|nodes0| - 1] + seq(|At(root, nodes0[|nodes0| - 1]).kids|, j => nodes0[|nodes0| - 1] + [j])
    requires forall k :: 0 <= k < |nodes| ==> ValidPath(root, nodes[k])
    requires Pending(root, nodes) == Pending(root, nodes0[..|nodes0| - 1]) + SumSizes(At(root, nodes0[|nodes0| - 1]).kids)
    ensures Reached(root, nodes, popped0 + [nodes0[|nodes0| - 1]])
    ensures Pending(root, nodes) < Pending(root, nodes0)
  {
    var current := nodes0[|nodes0| - 1];
    CoveredAfterPop(root, popped0, nodes0, current, nodes);
  }

  /**
   * add_parent_references: a work-list walk from the root that gives every
   * child the node it was reached from as its parent, and the root None.
   * `popped` records the work-list pops: each node of the tree exactly once.
   */
  method AddParentReferences(root: Node, parent: Links) returns (result: Links, ghost popped: seq<Path>)
    ensures forall q :: ValidPath(root, q) ==> q in result && result[q] == ParentOf(q)
    ensures forall q :: !ValidPath(root, q) ==> (q in result <==> q in parent)
    ensures forall q :: !ValidPath(root, q) && q in parent ==> result[q] == parent[q]
    ensures forall q :: ValidPath(root, q) <==> q in popped
    ensures |popped| == Size(root)
  {
    var nodes: seq<Path> := [[]];
    result := parent[[] := None];
    popped := [];
    assert Pending(root, nodes) == Size(root) by {
      assert nodes[..0] == [];
    }
    while |nodes| > 0
      invariant Walking(root, parent, nodes, popped, result)
      decreases Pending(root, nodes)
    {
      nodes, popped, result := ParentNext(root, parent, nodes, popped, result);
    }
    assert forall q :: q in popped ==> ValidPath(root, q);
  }

  // ----- add_sibling_references -----

  /** The node at q (not the root) carries the sibling links the pass gives it. */
  ghost predicate SiblingLinked(root: Node, previous: Links, next: Links, q: Path)
    requires ValidPath(root, q) && q != []
  {
    ValidPrefix(root, q, |q| - 1);
    && q in previous && previous[q] == PreviousOf(q)
    && q in next && next[q] == NextOf(root, q)
  }

  /** q is the position of one of the first n children of the node at `current`. */
  ghost predicate ChildKey(current: Path, n: nat, q: Path) {
    |q| == |current| + 1 && q[..|current|] == current && q[|current|] < n
  }

  /** The links of the children of `current` that LinkSiblings sets: child j of n. */
  ghost predicate ChildLinks(previous: Links, next: Links, current: Path, n: nat, j: nat)
    requires j < n
  {
    && current + [j] in previous && previous[current + [j]] == (if j == 0 then None else Some(current + [j - 1]))
    && current + [j] in next && next[current + [j]] == (if j == n - 1 then None else Some(current + [j + 1]))
  }

  lemma ChildKeyOf(current: Path, n: nat, j: nat)
    requires j < n
    ensures ChildKey(current, n, current + [j])
  {
    assert (current + [j])[..|current|] == current;
  }

  lemma ChildKeysDistinct(current: Path, a: nat, b: nat)
    requires a != b
    ensures current + [a] != current + [b]
  {
    assert (current + [a])[|current|] != (current + [b])[|current|];
  }

  /** Links set on the children of `current` are the ones the pass promises. */
  lemma ChildLinksSiblingLinked(root: Node, previous: Links, next: Links, current: Path, j: nat)
    requires ValidPath(root, current) && j < |At(root, current).kids|
    requires ChildLinks(previous, next, current, |At(root, current).kids|, j)
    ensures ValidPath(root, current + [j]) && SiblingLinked(root, previous, next, current + [j])
  {
    AtSnoc(root, current, j);
    var q := current + [j];
    assert Up(q) == current;
    assert q[|q| - 1] == j;
  }

  /** Pushing all children of a node adds their subtree sizes to the pending total. */
  lemma {:induction false} PendingChildren(root: Node, rest: seq<Path>, current: Path, i: nat, nodes: seq<Path>)
    requires forall k :: 0 <= k < |rest| ==> ValidPath(root, rest[k])
    requires ValidPath(root, current) && i <= |At(root, current).kids|
    requires nodes == rest + seq(i, j => current + [j])
    ensures forall k :: 0 <= k < |nodes| ==> ValidPath(root, nodes[k])
    ensures Pending(root, nodes) == Pending(root, rest) + SumSizes(At(root, current).kids[..i])
    decreases i
  {
    var kids := At(root, current).kids;
    if i == 0 {
      assert nodes == rest;
      assert kids[..0] == [];
    } else {
      var shorter := rest + seq(i - 1, j => current + [j]);
      PendingChildren(root, rest, current, i - 1, shorter);
      PendingPush(root, shorter, current, i - 1);
      PushChild(root, rest, shorter, current, i - 1);
      SumSizesSnoc(kids, i - 1);
    }
  }

  /**
   * The per-node step of add_sibling_references: set the links of the children
   * of `current` along the same branches as the Python code (no child, two
   * children, more than two children with the middle ones in a loop).
   */
  method LinkSiblings(current: Path, n: nat, previous0: Links, next0: Links)
    returns (previous: Links, next: Links)
    ensures forall j :: 0 <= j < n ==> ChildLinks(previous, next, current, n, j)
    ensures forall q :: !ChildKey(current, n, q) ==> (q in previous <==> q in previous0) && (q in next <==> q in next0)
    ensures forall q :: !ChildKey(current, n, q) && q in previous0 ==> previous[q] == previous0[q]
    ensures forall q :: !ChildKey(current, n, q) && q in next0 ==> next[q] == next0[q]
  {
    previous, next := previous0, next0;
    if n < 1 {
      return;
    }
    ChildKeyOf(current, n, 0);
    ChildKeyOf(current, n, n - 1);
    previous := previous[current + [0] := None];
    next := next[current + [n - 1] := None];
    if n == 2 {
      ChildKeyOf(current, n, 1);
      ChildKeysDistinct(current, 0, 1);
      next := next[current + [0] := Some(current + [1])];
      previous := previous[current + [1] := Some(current + [0])];
    }
    if n > 2 {
      ChildKeysDistinct(current, 0, n - 1);
      next := next[current + [0] := Some(current + [1])];
      previous := previous[current + [n - 1] := Some(current + [n - 2])];
      for index := 1 to n - 1
        invariant ChildLinks(previous, next, current, n, 0)
        invariant ChildLinks(previous, next, current, n, n - 1)
        invariant forall j :: 1 <= j < index ==> ChildLinks(previous, next, current, n, j)
        invariant forall q :: !ChildKey(current, n, q) ==> (q in previous <==> q in previous0) && (q in next <==> q in next0)
        invariant forall q :: !ChildKey(current, n, q) && q in previous0 ==> previous[q] == previous0[q]
        invariant forall q :: !ChildKey(current, n, q) && q in next0 ==> next[q] == next0[q]
      {
        ChildKeyOf(current, n, index);
        ChildKeysDistinct(current, 0, index);
        ChildKeysDistinct(current, n - 1, index);
        forall j | 1 <= j < index
          ensures current + [j] != current + [index]
        {
          ChildKeysDistinct(current, j, index);
        }
        ghost var previous1, next1 := previous, next;
        previous := previous[current + [index] := Some(current + [index - 1])];
        next := next[current + [index] := Some(current + [index + 1])];
        forall j | 1 <= j < index + 1
          ensures ChildLinks(previous, next, current, n, j)
        {
          if j < index {
            assert ChildLinks(previous1, next1, current, n, j);
          }
        }
      }
    }
  }

  /** A child key of a node of the tree is the position of one of its children. */
  lemma ChildKeyValid(root: Node, current: Path, q: Path)
    requires ValidPath(root, current) && ChildKey(current, |At(root, current).kids|, q)
    ensures q == current + [q[|current|]] && ValidPath(root, q) && q != []
  {
    assert q == q[..|current|] + [q[|current|]];
    AtSnoc(root, current, q[|current|]);
  }

  /** A node more than one level below a popped node is below one of the children pushed in its place. */
  lemma BelowChildren(root: Node, rest: seq<Path>, current: Path, q: Path)
    requires ValidPath(root, q) && ValidPath(root, current) && IsStrictPrefix(current, q)
    requires |q| > |current| + 1
    ensures Below(rest + seq(|At(root, current).kids|, j => current + [j]), q)
  {
    ChildPrefix(root, current, q);
    var j := q[|current|];
    var nodes := rest + seq(|At(root, current).kids|, j => current + [j]);
    assert nodes[|rest| + j] == current + [j];
    assert IsStrictPrefix(nodes[|rest| + j], q);
  }

  /** One pop of add_sibling_references keeps the walk's invariant. */
  lemma SiblingStep(root: Node, nodes0: seq<Path>, nodes: seq<Path>, current: Path,
                    previous0: Links, next0: Links, previous: Links, next: Links)
    requires |nodes0| > 0 && current == nodes0[|nodes0| - 1] && ValidPath(root, current)
    requires nodes == nodes0[..|nodes0| - 1] + seq(|At(root, current).kids|, j => current + [j])
    requires forall q :: ValidPath(root, q) && q != [] ==> Below(nodes0, q) || SiblingLinked(root, previous0, next0, q)
    requires forall j :: 0 <= j < |At(root, current).kids| ==> ChildLinks(previous, next, current, |At(root, current).kids|, j)
    requires forall q :: !ChildKey(current, |At(root, current).kids|, q) ==> (q in previous <==> q in previous0) && (q in next <==> q in next0)
    requires forall q :: !ChildKey(current, |At(root, current).kids|, q) && q in previous0 ==> previous[q] == previous0[q]
    requires forall q :: !ChildKey(current, |At(root, current).kids|, q) && q in next0 ==> next[q] == next0[q]
    ensures forall q :: ValidPath(root, q) && q != [] ==> Below(nodes, q) || SiblingLinked(root, previous, next, q)
    ensures forall q :: (q == [] || !ValidPath(root, q)) ==> !ChildKey(current, |At(root, current).kids|, q)
  {
    var n := |At(root, current).kids|;
    var rest := nodes0[..|nodes0| - 1];
    forall q | ValidPath(root, q) && q != []
      ensures Below(nodes, q) || SiblingLinked(root, previous, next, q)
    {
      if IsStrictPrefix(current, q) {
        if |q| == |current| + 1 {
          ChildPrefix(root, current, q);
          var j := q[|current|];
          assert q == current + [j];
          ChildLinksSiblingLinked(root, previous, next, current, j);
        } else {
          BelowChildren(root, rest, current, q);
        }
      } else {
        assert !ChildKey(current, n, q);
        if SiblingLinked(root, previous0, next0, q) {
          assert SiblingLinked(root, previous, next, q);
        } else {
          var k :| 0 <= k < |nodes0| && IsStrictPrefix(nodes0[k], q);
          assert nodes[k] == nodes0[k];
        }
      }
    }
    forall q | q == [] || !ValidPath(root, q)
      ensures !ChildKey(current, n, q)
    {
      if ChildKey(current, n, q) {
        ChildKeyValid(root, current, q);
      }
    }
  }

  /**
   * add_sibling_references: a work-list walk from the root that, at every
   * node, links each child to the sibling before and after it (None at the
   * ends). The root and positions outside the tree keep their attributes.
   */
  method AddSiblingReferences(root: Node, previous0: Links, next0: Links) returns (previous: Links, next: Links)
    ensures forall q :: ValidPath(root, q) && q != [] ==> SiblingLinked(root, previous, next, q)
    ensures forall q :: (q == [] || !ValidPath(root, q)) ==> (q in previous <==> q in previous0) && (q in next <==> q in next0)
    ensures forall q :: (q == [] || !ValidPath(root, q)) && q in previous0 ==> previous[q] == previous0[q]
    ensures forall q :: (q == [] || !ValidPath(root, q)) && q in next0 ==> next[q] == next0[q]
  {
    var nodes: seq<Path> := [[]];
    previous, next := previous0, next0;
    assert Pending(root, nodes) == Size(root) by {
      assert nodes[..0] == [];
    }
    while |nodes| > 0
      invariant forall k :: 0 <= k < |nodes| ==> ValidPath(root, nodes[k])
      invariant forall q :: ValidPath(root, q) && q != [] ==> Below(nodes, q) || SiblingLinked(root, previous, next, q)
      invariant forall q :: (q == [] || !ValidPath(root, q)) ==> (q in previous <==> q in previous0) && (q in next <==> q in next0)
      invariant forall q :: (q == [] || !ValidPath(root, q)) && q in previous0 ==> previous[q] == previous0[q]
      invariant forall q :: (q == [] || !ValidPath(root, q)) && q in next0 ==> next[q] == next0[q]
      decreases Pending(root, nodes)
    {
      ghost var nodes0, previous1, next1 := nodes, previous, next;
      var current := nodes[|nodes| - 1];
      var children := At(root, current).kids;
      nodes := nodes[..|nodes| - 1] + seq(|children|, j => current + [j]);
      PendingChildren(root, nodes0[..|nodes0| - 1], current, |children|, nodes);
      assert children[..|children|] == children;
      previous, next := LinkSiblings(current, |children|, previous, next);
      SiblingStep(root, nodes0, nodes, current, previous1, next1, previous, next);
    }
  }

  /** Child i of the node at p, for consecutive children: the links point at each other. */
  lemma {:induction false} ConsecutiveSiblings(root: Node, previous: Links, next: Links, p: Path, i: nat)
    requires ValidPath(root, p) && i + 1 < |At(root, p).kids|
    requires forall q :: ValidPath(root, q) && q != [] ==> SiblingLinked(root, previous, next, q)
    ensures p + [i] in next && next[p + [i]] == Some(p + [i + 1])
    ensures p + [i + 1] in previous && previous[p + [i + 1]] == Some(p + [i])
  {
    NextSibling(root, previous, next, p, i);
    PreviousSibling(root, previous, next, p, i);
  }

  /** Child i's `next` is child i + 1. */
  lemma NextSibling(root: Node, previous: Links, next: Links, p: Path, i: nat)
    requires ValidPath(root, p) && i + 1 < |At(root, p).kids|
    requires forall q :: ValidPath(root, q) && q != [] ==> SiblingLinked(root, previous, next, q)
    ensures p + [i] in next && next[p + [i]] == Some(p + [i + 1])
  {
    var a := p + [i];
    AtSnoc(root, p, i);
    assert Up(a) == p && a[|a| - 1] == i;
    assert SiblingLinked(root, previous, next, a);
    assert NextOf(root, a) == Some(p + [i + 1]);
  }

  /** Child i + 1's `previous` is child i. */
  lemma PreviousSibling(root: Node, previous: Links, next: Links, p: Path, i: nat)
    requires ValidPath(root, p) && i + 1 < |At(root, p).kids|
    requires forall q :: ValidPath(root, q) && q != [] ==> SiblingLinked(root, previous, next, q)
    ensures p + [i + 1] in previous && previous[p + [i + 1]] == Some(p + [i])
  {
    var b := p + [i + 1];
    AtSnoc(root, p, i + 1);
    assert Up(b) == p && b[|b| - 1] == i + 1;
    assert SiblingLinked(root, previous, next, b);
    assert PreviousOf(b) == Some(p + [i]);
  }

  /** The first child has no previous sibling and the last has no next one (an only child has neither). */
  lemma {:induction false} EndSiblings(root: Node, previous: Links, next: Links, p: Path)
    requires ValidPath(root, p) && |At(root, p).kids| > 0
    requires forall q :: ValidPath(root, q) && q != [] ==> SiblingLinked(root, previous, next, q)
    ensures p + [0] in previous && previous[p + [0]] == None
    ensures p + [|At(root, p).kids| - 1] in next && next[p + [|At(root, p).kids| - 1]] == None
  {
    var n := |At(root, p).kids|;
    AtSnoc(root, p, 0);
    AtSnoc(root, p, n - 1);
    assert SiblingLinked(root, previous, next, p + [0]);
    assert SiblingLinked(root, previous, next, p + [n - 1]);
    assert Up(p + [0]) == p && Up(p + [n - 1]) == p;
  }

  // ----- copy_location -----

  /** The attribute `name` of a node: absent, or present with its value. */
  function Attr(links: Links, q: Path): (r: Option<Option<Path>>)
    ensures r.Some? <==> q in links
    ensures r.Some? ==> r.value == links[q]
  {
    if q in links then Some(links[q]) else None
  }

  /** A node built outside the tree that carries its own link attributes. */
  datatype Detached = Detached(node: Node, parent: Option<Option<Path>>, previous: Option<Option<Path>>, next: Option<Option<Path>>)

  /**
   * copy_location(new, old): the new node `created` takes the source location and
   * the parent, previous and next attributes of the tree node at `original`.
   */
  function CopyLocation(created: Node, root: Node, original: Path, parent: Links, previous: Links, next: Links): (r: Detached)
    requires ValidPath(root, original)
    ensures r.node.kind == created.kind && r.node.kids == created.kids
    ensures r.node.loc == At(root, original).loc
    ensures r.parent == Attr(parent, original) && r.previous == Attr(previous, original) && r.next == Attr(next, original)
  {
    Detached(created.(loc := At(root, original).loc), Attr(parent, original), Attr(previous, original), Attr(next, original))
  }

  /**
   * After both reference passes, a copy of child j of the node at p points at
   * p as its parent and at child j - 1 and child j + 1 as its siblings.
   */
  lemma {:induction false} CopyLocationAfterReferences(created: Node, root: Node, p: Path, j: nat, parent: Links, previous: Links, next: Links)
    requires ValidPath(root, p) && j < |At(root, p).kids|
    requires forall q :: ValidPath(root, q) ==> q in parent && parent[q] == ParentOf(q)
    requires forall q :: ValidPath(root, q) && q != [] ==> SiblingLinked(root, previous, next, q)
    ensures ValidPath(root, p + [j])
    ensures CopyLocation(created, root, p + [j], parent, previous, next).parent == Some(Some(p))
    ensures CopyLocation(created, root, p + [j], parent, previous, next).previous == Some(if j == 0 then None else Some(p + [j - 1]))
    ensures CopyLocation(created, root, p + [j], parent, previous, next).next == Some(if j + 1 == |At(root, p).kids| then None else Some(p + [j + 1]))
  {
    AtSnoc(root, p, j);
    var q := p + [j];
    assert SiblingLinked(root, previous, next, q);
    assert Up(q) == p && q[|q| - 1] == j;
  }
}
