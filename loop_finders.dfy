/**
 * pycc's three loop finders, `ForListFinder`, `RangeLenFinder` and
 * `ReversedRangeFinder`: NodeFinders whose one handler, `visit_For`, reports
 * the loop when the finder's test accepts it and never enters the loop.
 */
module LoopFinders {
  import opened Wrappers
  import opened Syntax
  import opened NodeFinders
  import ForList
  import RangeLenLoops
  import ReversedRangeLoops

  datatype Finder = ForListFinder | RangeLenFinder | ReversedRangeFinder

  /** The finder's test on a loop; the index-loop tests raise what their detector raises. */
  function Accepts(which: Finder, f: Node): (r: Result<bool>)
    requires f.kind.For? && WellFormed(f)
    ensures which == ForListFinder ==> r == Ok(ForList.Guard(f))
  {
    match which
    case ForListFinder => Ok(ForList.Guard(f))
    case RangeLenFinder => RangeLenLoops.Guard(f)
    case ReversedRangeFinder => ReversedRangeLoops.Guard(f)
  }

  /** What the finder reports when it visits n found at `at`: an accepted loop, or the loops under n. */
  function Loops(which: Finder, n: Node, at: Path): (r: Result<seq<Path>>)
    requires WellFormed(n)
    decreases n, 1
  {
    if n.kind.For? then
      var accepted :- Accepts(which, n);
      Ok(if accepted then [at] else [])
    else LoopsIn(which, n, at, |n.kids|)
  }

  function LoopsIn(which: Finder, n: Node, at: Path, i: nat): (r: Result<seq<Path>>)
    requires WellFormed(n) && i <= |n.kids|
    decreases n, 0, i
  {
    if i == 0 then Ok([])
    else
      var front :- LoopsIn(which, n, at, i - 1);
      var more :- Loops(which, n.kids[i - 1], at + [i - 1]);
      Ok(front + more)
  }

  /** q is a position in n reached without passing through a loop on the way. */
  predicate OutsideLoops(n: Node, q: Path)
    decreases |q|
  {
    q == [] || (!n.kind.For? && q[0] < |n.kids| && OutsideLoops(n.kids[q[0]], q[1..]))
  }

  /**
   * q leads from n to a loop the finder's test accepts, passing through no
   * other loop on the way: an outermost accepted loop.
   */
  predicate Reported(which: Finder, n: Node, q: Path)
    requires WellFormed(n)
    decreases |q|
  {
    if q == [] then n.kind.For? && Accepts(which, n) == Ok(true)
    else !n.kind.For? && q[0] < |n.kids| && Reported(which, n.kids[q[0]], q[1..])
  }

  /** A reported position holds a loop the test accepts, and no loop lies above it. */
  lemma {:induction false} ReportedMeans(which: Finder, n: Node, q: Path)
    requires WellFormed(n) && Reported(which, n, q)
    ensures OutsideLoops(n, q) && ValidPath(n, q) && At(n, q).kind.For?
    ensures (WellFormedAt(n, q); Accepts(which, At(n, q)) == Ok(true))
    decreases |q|
  {
    if q != [] {
      ReportedMeans(which, n.kids[q[0]], q[1..]);
    }
  }

  /** Conversely, an accepted loop with no loop above it is reported. */
  lemma {:induction false} ReportedFrom(which: Finder, n: Node, q: Path)
    requires WellFormed(n) && OutsideLoops(n, q) && ValidPath(n, q) && At(n, q).kind.For?
    requires (WellFormedAt(n, q); Accepts(which, At(n, q)) == Ok(true))
    ensures Reported(which, n, q)
    decreases |q|
  {
    if q != [] {
      ReportedFrom(which, n.kids[q[0]], q[1..]);
    }
  }

  predicate AllReported(which: Finder, n: Node, at: Path, r: seq<Path>)
    requires WellFormed(n)
  {
    forall k :: 0 <= k < |r| ==> IsPrefix(at, r[k]) && Reported(which, n, r[k][|at|..])
  }

  /** Everything the finder reports is an accepted outermost loop. */
  lemma {:induction false} LoopsSound(which: Finder, n: Node, at: Path)
    requires WellFormed(n) && Loops(which, n, at).Ok?
    ensures AllReported(which, n, at, Loops(which, n, at).value)
    decreases n, 1
  {
    if n.kind.For? {
      var r := Loops(which, n, at).value;
      forall k | 0 <= k < |r|
        ensures IsPrefix(at, r[k]) && Reported(which, n, r[k][|at|..])
      {
        assert r[k] == at && at[|at|..] == [];
      }
    } else {
      LoopsInSound(which, n, at, |n.kids|);
    }
  }

  lemma {:induction false} LoopsInSound(which: Finder, n: Node, at: Path, i: nat)
    requires WellFormed(n) && !n.kind.For? && i <= |n.kids| && LoopsIn(which, n, at, i).Ok?
    ensures AllReported(which, n, at, LoopsIn(which, n, at, i).value)
    decreases n, 0, i
  {
    if i > 0 {
      assert WellFormed(n.kids[i - 1]);
      LoopsInOk(which, n, at, i);
      LoopsInSound(which, n, at, i - 1);
      LoopsSound(which, n.kids[i - 1], at + [i - 1]);
      AllReportedStep(which, n, at, i);
    }
  }

  lemma AllReportedStep(which: Finder, n: Node, at: Path, i: nat)
    requires WellFormed(n) && !n.kind.For? && 0 < i <= |n.kids| && LoopsIn(which, n, at, i).Ok?
    requires LoopsIn(which, n, at, i - 1).Ok? && AllReported(which, n, at, LoopsIn(which, n, at, i - 1).value)
    requires Loops(which, n.kids[i - 1], at + [i - 1]).Ok?
    requires AllReported(which, n.kids[i - 1], at + [i - 1], Loops(which, n.kids[i - 1], at + [i - 1]).value)
    ensures AllReported(which, n, at, LoopsIn(which, n, at, i).value)
  {
    LoopsInOk(which, n, at, i);
    AllReportedAppend(which, n, at, i - 1, LoopsIn(which, n, at, i - 1).value, Loops(which, n.kids[i - 1], at + [i - 1]).value);
  }

  /** A walk of i > 0 children that succeeds is the walk of the first i - 1 followed by child i - 1's. */
  lemma LoopsInOk(which: Finder, n: Node, at: Path, i: nat)
    requires WellFormed(n) && 0 < i <= |n.kids| && LoopsIn(which, n, at, i).Ok?
    ensures LoopsIn(which, n, at, i - 1).Ok? && Loops(which, n.kids[i - 1], at + [i - 1]).Ok?
    ensures LoopsIn(which, n, at, i).value == LoopsIn(which, n, at, i - 1).value + Loops(which, n.kids[i - 1], at + [i - 1]).value
  {
  }

  /** The loops reported below child i, found at `at`, join those already reported below n. */
  lemma AllReportedAppend(which: Finder, n: Node, at: Path, i: nat, front: seq<Path>, more: seq<Path>)
    requires WellFormed(n) && !n.kind.For? && i < |n.kids|
    requires AllReported(which, n, at, front) && AllReported(which, n.kids[i], at + [i], more)
    ensures AllReported(which, n, at, front + more)
  {
    forall k | 0 <= k < |front + more|
      ensures IsPrefix(at, (front + more)[k]) && Reported(which, n, (front + more)[k][|at|..])
    {
      if k >= |front| {
        var p := more[k - |front|];
        assert (front + more)[k] == p;
        assert |at + [i]| == |at| + 1;
        ReportedUnder(which, n, at, i, p);
      }
    }
  }

  /** A loop reported below child i of n, found at `at`, is a loop reported below n. */
  lemma ReportedUnder(which: Finder, n: Node, at: Path, i: nat, p: Path)
    requires WellFormed(n) && !n.kind.For? && i < |n.kids|
    requires IsPrefix(at + [i], p) && Reported(which, n.kids[i], p[|at| + 1..])
    ensures IsPrefix(at, p) && Reported(which, n, p[|at|..])
  {
    var q := p[|at|..];
    assert p[..|at|] == (at + [i])[..|at|] == at;
    assert q == [i] + p[|at| + 1..];
  }

  /** Every accepted outermost loop is reported, when the walk does not fail. */
  lemma {:induction false} LoopsComplete(which: Finder, n: Node, at: Path, q: Path)
    requires WellFormed(n) && Loops(which, n, at).Ok? && Reported(which, n, q)
    ensures at + q in Loops(which, n, at).value
    decreases |q|
  {
    if q == [] {
      assert at + q == at;
    } else {
      var i := q[0];
      LoopsInHas(which, n, at, |n.kids|, i);
      LoopsComplete(which, n.kids[i], at + [i], q[1..]);
      assert (at + [i]) + q[1..] == at + q;
    }
  }

  /** The walk of the first j children holds what each of them reports. */
  lemma {:induction false} LoopsInHas(which: Finder, n: Node, at: Path, j: nat, i: nat)
    requires WellFormed(n) && i < j <= |n.kids| && LoopsIn(which, n, at, j).Ok?
    ensures Loops(which, n.kids[i], at + [i]).Ok?
    ensures forall p :: p in Loops(which, n.kids[i], at + [i]).value ==> p in LoopsIn(which, n, at, j).value
    decreases j
  {
    if i < j - 1 {
      LoopsInHas(which, n, at, j - 1, i);
    }
  }

  class LoopFinder {
    const which: Finder
    /** the accumulator the finder reports into */
    const base: NodeFinder

    constructor(which: Finder, root: Node)
      ensures this.which == which && fresh(base) && base.root == root && base.results == []
    {
      this.which := which;
      base := new NodeFinder(root);
    }

    /** `visit(n)`: the results so far with n's loops added, or the error raised. */
    method Visit(n: Node) returns (r: Result<seq<Path>>)
      requires WellFormed(n)
      modifies base
      ensures r.Ok? <==> Loops(which, n, []).Ok?
      ensures r.Ok? ==> base.results == old(base.results) + Loops(which, n, []).value && r.value == base.results
      ensures r.Err? ==> r.error == Loops(which, n, []).error
    {
      var w := Walk(n, []);
      if w.Err? {
        return Err(w.error);
      }
      r := Ok(base.results);
    }

    method Walk(n: Node, at: Path) returns (r: Result<()>)
      requires WellFormed(n)
      modifies base
      ensures r.Ok? <==> Loops(which, n, at).Ok?
      ensures r.Ok? ==> base.results == old(base.results) + Loops(which, n, at).value
      ensures r.Err? ==> r.error == Loops(which, n, at).error
      decreases n
    {
      if n.kind.For? {
        r := VisitFor(n, at);
        return;
      }
      var i := 0;
      while i < |n.kids|
        invariant i <= |n.kids|
        invariant LoopsIn(which, n, at, i).Ok?
        invariant base.results == old(base.results) + LoopsIn(which, n, at, i).value
      {
        var sub := Walk(n.kids[i], at + [i]);
        if sub.Err? {
          LoopsInFails(which, n, at, i + 1, |n.kids|);
          return Err(sub.error);
        }
        i := i + 1;
      }
      r := Ok(());
    }

    method VisitFor(f: Node, at: Path) returns (r: Result<()>)
      requires f.kind.For? && WellFormed(f)
      modifies base
      ensures r.Ok? <==> Loops(which, f, at).Ok?
      ensures r.Ok? ==> base.results == old(base.results) + Loops(which, f, at).value
      ensures r.Err? ==> r.error == Loops(which, f, at).error
    {
      var accepted: Result<bool>;
      if which == ForListFinder {
        var iter := f.kids[1];
        var sequential := false;
        if iter.kind.Tuple? || iter.kind.List? {
          sequential := ForList.DetectSequential(iter);
        }
        accepted := Ok(sequential);
      } else {
        accepted := Accepts(which, f);
      }
      if accepted.Err? {
        return Err(accepted.error);
      }
      if accepted.value {
        base.Add(at);
      }
      r := Ok(());
    }
  }

  /** Once a child's walk fails, every longer prefix fails the same way. */
  lemma {:induction false} LoopsInFails(which: Finder, n: Node, at: Path, i: nat, j: nat)
    requires WellFormed(n) && 0 < i <= j <= |n.kids|
    requires LoopsIn(which, n, at, i - 1).Ok? && Loops(which, n.kids[i - 1], at + [i - 1]).Err?
    ensures LoopsIn(which, n, at, j) == Err(Loops(which, n.kids[i - 1], at + [i - 1]).error)
    decreases j
  {
    if j > i {
      LoopsInFails(which, n, at, i, j - 1);
      LoopsInFailStep(which, n, at, j, Loops(which, n.kids[i - 1], at + [i - 1]).error);
    } else {
      LoopsInFailFirst(which, n, at, i);
    }
  }

  lemma LoopsInFailFirst(which: Finder, n: Node, at: Path, i: nat)
    requires WellFormed(n) && 0 < i <= |n.kids|
    requires LoopsIn(which, n, at, i - 1).Ok? && Loops(which, n.kids[i - 1], at + [i - 1]).Err?
    ensures LoopsIn(which, n, at, i) == Err(Loops(which, n.kids[i - 1], at + [i - 1]).error)
  {
  }

  lemma LoopsInFailStep(which: Finder, n: Node, at: Path, j: nat, e: Error)
    requires WellFormed(n) && 0 < j <= |n.kids| && LoopsIn(which, n, at, j - 1) == Err(e)
    ensures LoopsIn(which, n, at, j) == Err(e)
  {
  }
}
