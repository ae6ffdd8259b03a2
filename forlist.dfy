/**
 * pycc's `visitors.forlist`: a loop over the literal list or tuple
 * 0, 1, ..., n-1 is a loop over `xrange(n)`.
 */
module ForList {
  import opened Wrappers
  import opened Syntax

  // ----- SequentialListDetector -----

  /**
   * A List or Tuple literal read in Load context that is non-empty and whose
   * element i is the number i. Any other node is not sequential.
   */
  predicate Sequential(l: Node) {
    (l.kind.List? || l.kind.Tuple?) && l.kind.ctx == Load && |l.kids| > 0 &&
    forall i :: 0 <= i < |l.kids| ==> l.kids[i].kind == Num(i)
  }

  /** `SequentialListDetector().visit(l)`: the early-return scan over the elements. */
  method DetectSequential(l: Node) returns (b: bool)
    ensures b == Sequential(l)
  {
    if !(l.kind.List? || l.kind.Tuple?) || l.kind.ctx != Load || |l.kids| == 0 {
      return false;
    }
    var i := 0;
    while i < |l.kids|
      invariant i <= |l.kids|
      invariant forall j :: 0 <= j < i ==> l.kids[j].kind == Num(j)
    {
      var v := l.kids[i];
      if !v.kind.Num? || v.kind.n != i {
        return false;
      }
      i := i + 1;
    }
    return true;
  }

  /** The numbers a literal of Num elements holds, in order. */
  function Numbers(elts: seq<Node>): (r: seq<int>)
    requires forall i :: 0 <= i < |elts| ==> elts[i].kind.Num?
    ensures |r| == |elts|
    ensures forall i :: 0 <= i < |elts| ==> r[i] == elts[i].kind.n
  {
    if elts == [] then [] else Numbers(elts[..|elts| - 1]) + [elts[|elts| - 1].kind.n]
  }

  /** The numbers `xrange(k)` yields. */
  function XRangeValues(k: nat): (r: seq<int>)
    ensures |r| == k
    ensures forall i :: 0 <= i < k ==> r[i] == i
  {
    if k == 0 then [] else XRangeValues(k - 1) + [k - 1]
  }

  /**
   * A literal is sequential exactly when it is a non-empty Load literal of
   * numbers that are the ones `xrange` of its length yields: the rewrite does
   * not change what the loop iterates over.
   */
  lemma SequentialIsXRange(l: Node)
    ensures Sequential(l) <==>
      (l.kind.List? || l.kind.Tuple?) && l.kind.ctx == Load && |l.kids| > 0 &&
      (forall i :: 0 <= i < |l.kids| ==> l.kids[i].kind.Num?) &&
      Numbers(l.kids) == XRangeValues(|l.kids|)
  {
    if (l.kind.List? || l.kind.Tuple?) && (forall i :: 0 <= i < |l.kids| ==> l.kids[i].kind.Num?) &&
       Numbers(l.kids) == XRangeValues(|l.kids|) {
      forall i | 0 <= i < |l.kids|
        ensures l.kids[i].kind == Num(i)
      {
        assert Numbers(l.kids)[i] == XRangeValues(|l.kids|)[i];
      }
    }
  }

  // ----- ForListFinder -----

  /** `ForListFinder.visit_For`'s test: the loop's iter is a sequential List or Tuple literal. */
  predicate Guard(f: Node)
    requires f.kind.For? && Shaped(f)
  {
    (f.kids[1].kind.Tuple? || f.kids[1].kind.List?) && Sequential(f.kids[1])
  }

  // ----- XRangeReplacer -----

  /** `xrange(k)`, as the replacer builds it: a Call of a Load Name with one Num argument, no location. */
  function XRangeCall(k: nat): (r: Node)
    ensures r.kind == Call(1) && Shaped(r) && CallArgs(r) == [Node(Num(k), [], None)]
    ensures r.kids[0].kind == Name("xrange", Load)
  {
    Node(Call(1), [Node(Name("xrange", Load), [], None), Node(Num(k), [], None)], None)
  }

  /**
   * The XRangeReplacer pass over n found at position `at`: a For listed in
   * `loops` gets the iter `xrange(len(iter.elts))` located at the old iter
   * (AttributeError when that iter has no elements); every node, a listed
   * loop included, then has its children visited. The new iter is kept as
   * it is, which is what visiting it gives (XRangeCallVisited).
   */
  function XRanged(n: Node, at: Path, loops: seq<Path>): (r: Result<Node>)
    decreases n, 1
  {
    if n.kind.For? && Shaped(n) && at in loops then
      var elts :- EltsOf(n.kids[1]);
      var kids :- XRangedKids(n, at, |n.kids|, loops, Some(CopyLoc(XRangeCall(|elts|), n.kids[1])));
      Ok(n.(kids := kids))
    else
      var kids :- XRangedKids(n, at, |n.kids|, loops, None);
      Ok(n.(kids := kids))
  }

  /** The visits of the first i children of n; `iter` is the new iter of a listed loop, kept as built. */
  function XRangedKids(n: Node, at: Path, i: nat, loops: seq<Path>, iter: Option<Node>): (r: Result<seq<Node>>)
    requires i <= |n.kids|
    ensures r.Ok? ==> |r.value| == i
    decreases n, 0, i
  {
    if i == 0 then Ok([])
    else
      var front :- XRangedKids(n, at, i - 1, loops, iter);
      var kid :- if i - 1 == 1 && iter.Some? then Ok(iter.value) else XRanged(n.kids[i - 1], at + [i - 1], loops);
      Ok(front + [kid])
  }

  /** Visiting the new iter leaves it as it is: it holds no For. */
  lemma XRangeCallVisited(k: nat, loc: Option<Loc>, at: Path, loops: seq<Path>)
    ensures XRanged(XRangeCall(k).(loc := loc), at, loops) == Ok(XRangeCall(k).(loc := loc))
  {
    var c := XRangeCall(k).(loc := loc);
    var none: seq<Node> := [];
    assert XRangedKids(c, at, 0, loops, None) == Ok(none);
    assert XRanged(c.kids[0], at + [0], loops) == Ok(c.kids[0]);
    assert XRanged(c.kids[1], at + [1], loops) == Ok(c.kids[1]);
    assert none + [c.kids[0]] == [c.kids[0]];
    assert XRangedKids(c, at, 1, loops, None) == Ok([c.kids[0]]);
    assert [c.kids[0]] + [c.kids[1]] == [c.kids[0], c.kids[1]];
    assert XRangedKids(c, at, 2, loops, None) == Ok([c.kids[0]] + [c.kids[1]]);
    assert [c.kids[0], c.kids[1]] == c.kids;
  }

  /** No listed loop at or below `at`. */
  predicate Unlisted(at: Path, loops: seq<Path>) {
    forall k :: 0 <= k < |loops| ==> !IsPrefix(at, loops[k])
  }

  /** A subtree with no listed loop in it comes back unchanged. */
  lemma {:induction false} XRangedUnlisted(n: Node, at: Path, loops: seq<Path>)
    requires Unlisted(at, loops)
    ensures XRanged(n, at, loops) == Ok(n)
    decreases n, 1
  {
    assert at[..|at|] == at;
    assert at !in loops;
    XRangedKidsUnlisted(n, at, |n.kids|, loops);
    assert n.kids[..|n.kids|] == n.kids;
  }

  lemma {:induction false} XRangedKidsUnlisted(n: Node, at: Path, i: nat, loops: seq<Path>)
    requires Unlisted(at, loops) && i <= |n.kids|
    ensures XRangedKids(n, at, i, loops, None) == Ok(n.kids[..i])
    decreases n, 0, i
  {
    if i > 0 {
      XRangedKidsUnlisted(n, at, i - 1, loops);
      assert Unlisted(at + [i - 1], loops);
      XRangedUnlisted(n.kids[i - 1], at + [i - 1], loops);
      assert n.kids[..i] == n.kids[..i - 1] + [n.kids[i - 1]];
    }
  }

  /**
   * A listed loop with no listed loop nested in it: its iter becomes
   * `xrange(k)` for the k elements of the old iter, located at the old iter,
   * and its target, body and else branch are kept.
   */
  lemma {:induction false} XRangedLoop(f: Node, at: Path, loops: seq<Path>)
    requires f.kind.For? && Shaped(f) && at in loops
    requires f.kids[1].kind.List? || f.kids[1].kind.Tuple?
    requires forall k :: 0 <= k < |loops| && IsPrefix(at, loops[k]) ==> loops[k] == at
    ensures XRanged(f, at, loops) ==
      Ok(f.(kids := f.kids[1 := CopyLoc(XRangeCall(|f.kids[1].kids|), f.kids[1])]))
  {
    var iter := CopyLoc(XRangeCall(|f.kids[1].kids|), f.kids[1]);
    var want := f.kids[1 := iter];
    XRangedLoopKids(f, at, |f.kids|, loops, iter);
    assert want[..|f.kids|] == want;
  }

  lemma {:induction false} XRangedLoopKids(f: Node, at: Path, i: nat, loops: seq<Path>, iter: Node)
    requires f.kind.For? && Shaped(f) && i <= |f.kids|
    requires forall k :: 0 <= k < |loops| && IsPrefix(at, loops[k]) ==> loops[k] == at
    ensures XRangedKids(f, at, i, loops, Some(iter)) == Ok(f.kids[1 := iter][..i])
    decreases i
  {
    if i > 0 {
      XRangedLoopKids(f, at, i - 1, loops, iter);
      if i - 1 != 1 {
        XRangedUnlisted(f.kids[i - 1], at + [i - 1], loops);
      }
      assert f.kids[1 := iter][..i] == f.kids[1 := iter][..i - 1] + [f.kids[1 := iter][i - 1]];
    }
  }

  /** The pass fails only at a listed loop whose iter has no elements. */
  lemma {:induction false} XRangedFails(n: Node, at: Path, loops: seq<Path>)
    requires XRanged(n, at, loops).Err?
    ensures XRanged(n, at, loops).error == AttributeError
    decreases n, 1
  {
    if n.kind.For? && Shaped(n) && at in loops && EltsOf(n.kids[1]).Ok? {
      XRangedKidsFail(n, at, |n.kids|, loops, Some(CopyLoc(XRangeCall(|n.kids[1].kids|), n.kids[1])));
    } else if !(n.kind.For? && Shaped(n) && at in loops) {
      XRangedKidsFail(n, at, |n.kids|, loops, None);
    }
  }

  lemma {:induction false} XRangedKidsFail(n: Node, at: Path, i: nat, loops: seq<Path>, iter: Option<Node>)
    requires i <= |n.kids| && XRangedKids(n, at, i, loops, iter).Err?
    ensures XRangedKids(n, at, i, loops, iter).error == AttributeError
    decreases n, 0, i
  {
    if XRangedKids(n, at, i - 1, loops, iter).Err? {
      XRangedKidsFail(n, at, i - 1, loops, iter);
    } else if !(i - 1 == 1 && iter.Some?) {
      XRangedFails(n.kids[i - 1], at + [i - 1], loops);
    }
  }

  class XRangeReplacer {
    /** positions of the loops to rewrite, as reported by the finder */
    const loops: seq<Path>

    constructor(loops: seq<Path>)
      ensures this.loops == loops
    {
      this.loops := loops;
    }

    /** `visit(n)` on n found at `at`: the rewritten tree, or the error raised. */
    method Visit(n: Node, at: Path) returns (r: Result<Node>)
      ensures r == XRanged(n, at, loops)
      decreases n, 1
    {
      var iter: Option<Node> := None;
      if n.kind.For? && Shaped(n) && at in loops {
        var elts := EltsOf(n.kids[1]);
        if elts.Err? {
          return Err(elts.error);
        }
        iter := Some(CopyLoc(XRangeCall(|elts.value|), n.kids[1]));
      }
      var kids := GenericVisit(n, at, iter);
      if kids.Err? {
        return Err(kids.error);
      }
      r := Ok(n.(kids := kids.value));
    }

    /**
     * `generic_visit(n)`: each child visited in order; in a listed loop child
     * 1 is the new iter `visit_For` has just set, kept as built.
     */
    method GenericVisit(n: Node, at: Path, iter: Option<Node>) returns (r: Result<seq<Node>>)
      ensures r == XRangedKids(n, at, |n.kids|, loops, iter)
      decreases n, 0
    {
      var kids: seq<Node> := [];
      var i := 0;
      while i < |n.kids|
        invariant i <= |n.kids|
        invariant XRangedKids(n, at, i, loops, iter) == Ok(kids)
      {
        var kid: Result<Node>;
        if i == 1 && iter.Some? {
          kid := Ok(iter.value);
        } else {
          kid := Visit(n.kids[i], at + [i]);
        }
        if kid.Err? {
          XRangedKidsFailFrom(n, at, i + 1, |n.kids|, loops, iter, kid.error);
          return Err(kid.error);
        }
        XRangedKidsStep(n, at, i, loops, iter, kids, kid.value);
        kids := kids + [kid.value];
        i := i + 1;
      }
      r := Ok(kids);
    }
  }

  /** One more child: its visit, or the new iter in its place, is appended. */
  lemma XRangedKidsStep(n: Node, at: Path, i: nat, loops: seq<Path>, iter: Option<Node>, front: seq<Node>, x: Node)
    requires i < |n.kids| && XRangedKids(n, at, i, loops, iter) == Ok(front)
    requires (if i == 1 && iter.Some? then Ok(iter.value) else XRanged(n.kids[i], at + [i], loops)) == Ok(x)
    ensures XRangedKids(n, at, i + 1, loops, iter) == Ok(front + [x])
  {
  }

  /** Once one child's visit fails, every longer prefix fails the same way. */
  lemma {:induction false} XRangedKidsFailFrom(n: Node, at: Path, i: nat, j: nat, loops: seq<Path>, iter: Option<Node>, e: Error)
    requires 0 < i <= j <= |n.kids|
    requires XRangedKids(n, at, i - 1, loops, iter).Ok?
    requires !(i - 1 == 1 && iter.Some?) && XRanged(n.kids[i - 1], at + [i - 1], loops) == Err(e)
    ensures XRangedKids(n, at, j, loops, iter) == Err(e)
    decreases j
  {
    if j > i {
      XRangedKidsFailFrom(n, at, i, j - 1, loops, iter, e);
    }
  }
}
