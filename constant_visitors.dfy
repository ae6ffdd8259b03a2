/**
 * The older constant visitors of pycc (`visitors.constants`): a counter of
 * assignments to one name, a finder of assignments whose names are assigned
 * at most once, and an inliner that replaces loads of those names by the
 * assigned values.
 */
module ConstantVisitors {
  import opened Wrappers
  import opened Syntax
  import opened NodeFinders

  // ----- AssignmentCounter -----

  /** A counted target: the position of a Store-context Name `name` directly under an Assign. */
  predicate CountedAt(n: Node, p: Path, name: string) {
    |p| >= 1 && ValidPath(n, p) && ValidPath(n, Up(p)) &&
    IsStoreName(At(n, p), name) &&
    At(n, Up(p)).kind.Assign? && p[|p| - 1] < |At(n, Up(p)).kids| - 1
  }

  /** The targets among the first j of an Assign's children that are counted. */
  function TargetHits(s: Node, j: nat, name: string): (r: seq<Path>)
    requires s.kind.Assign? && Shaped(s) && j <= |s.kids| - 1
    ensures |r| == 0 <==> forall k :: 0 <= k < j ==> !IsStoreName(s.kids[k], name)
  {
    if j == 0 then []
    else
      var front := TargetHits(s, j - 1, name);
      if IsStoreName(s.kids[j - 1], name) then front + [[j - 1]] else front
  }

  /**
   * The targets the counter for `name` counts under n, as positions in n, in
   * visiting order: an Assign counts each of its Store-context Name targets
   * with that id, chained targets included, and is not entered; every other
   * node is entered.
   */
  function CountedTargets(n: Node, name: string): seq<Path>
    requires WellFormed(n)
    decreases n, 1
  {
    if n.kind.Assign? then TargetHits(n, |n.kids| - 1, name)
    else CountedTargetsIn(n, |n.kids|, name)
  }

  function CountedTargetsIn(n: Node, i: nat, name: string): seq<Path>
    requires WellFormed(n) && i <= |n.kids|
    decreases n, 0, i
  {
    if i == 0 then []
    else CountedTargetsIn(n, i - 1, name) + Under(i - 1, CountedTargets(n.kids[i - 1], name))
  }

  predicate AllCounted(n: Node, ps: seq<Path>, name: string) {
    forall k :: 0 <= k < |ps| ==> CountedAt(n, ps[k], name)
  }

  lemma {:induction false} TargetHitsCounted(s: Node, j: nat, name: string)
    requires s.kind.Assign? && Shaped(s) && j <= |s.kids| - 1
    ensures AllCounted(s, TargetHits(s, j, name), name)
  {
    if j > 0 {
      TargetHitsCounted(s, j - 1, name);
      if IsStoreName(s.kids[j - 1], name) {
        TargetCounted(s, j - 1, name);
      }
    }
  }

  /** A Store-context Name `name` among an Assign's targets is counted. */
  lemma TargetCounted(s: Node, k: nat, name: string)
    requires s.kind.Assign? && k < |s.kids| - 1 && IsStoreName(s.kids[k], name)
    ensures CountedAt(s, [k], name)
  {
    var p: Path := [k];
    assert p[1..] == [] && Up(p) == [];
    assert ValidPath(s.kids[k], p[1..]);
    assert At(s, p) == At(s.kids[k], p[1..]) == s.kids[k];
  }

  /**
   * Every position the counter counts holds a Store-context Name `name` that
   * is a target of an Assign, and no position is counted twice.
   */
  lemma {:induction false} CountedTargetsSound(n: Node, name: string)
    requires WellFormed(n)
    ensures AllCounted(n, CountedTargets(n, name), name)
    ensures Distinct(CountedTargets(n, name))
    decreases n, 1
  {
    if n.kind.Assign? {
      TargetHitsCounted(n, |n.kids| - 1, name);
      TargetHitsExactly(n, |n.kids| - 1, name, []);
    } else {
      CountedTargetsInSound(n, |n.kids|, name);
    }
  }

  lemma {:induction false} CountedTargetsInSound(n: Node, i: nat, name: string)
    requires WellFormed(n) && i <= |n.kids|
    ensures AllCounted(n, CountedTargetsIn(n, i, name), name)
    ensures Distinct(CountedTargetsIn(n, i, name)) && Below(CountedTargetsIn(n, i, name), i)
    decreases n, 0, i
  {
    if i > 0 {
      CountedTargetsInSound(n, i - 1, name);
      CountedTargetsSound(n.kids[i - 1], name);
      var front := CountedTargetsIn(n, i - 1, name);
      var more := Under(i - 1, CountedTargets(n.kids[i - 1], name));
      DistinctUnder(front, i - 1, CountedTargets(n.kids[i - 1], name));
      forall k | 0 <= k < |front + more|
        ensures CountedAt(n, (front + more)[k], name)
      {
        if k >= |front| {
          assert (front + more)[k] == [i - 1] + CountedTargets(n.kids[i - 1], name)[k - |front|];
          CountedUnder(n, i - 1, CountedTargets(n.kids[i - 1], name)[k - |front|], name);
        }
      }
    }
  }

  /** A counted position in a child is a counted position in its parent. */
  lemma CountedUnder(n: Node, i: nat, p: Path, name: string)
    requires i < |n.kids| && CountedAt(n.kids[i], p, name)
    ensures CountedAt(n, [i] + p, name)
  {
    var q := [i] + p;
    assert q[1..] == p;
    assert Up(q) == [i] + Up(p);
    assert Up(q)[1..] == Up(p);
    assert q[|q| - 1] == p[|p| - 1];
  }

  /**
   * p is a target the counter for `name` counts in n: it leads to a
   * Store-context Name `name` among the targets of an Assign, passing through
   * no other Assign on the way.
   */
  predicate CountedTarget(n: Node, p: Path, name: string)
    decreases |p|
  {
    p != [] &&
    if n.kind.Assign? then |p| == 1 && p[0] < |n.kids| - 1 && IsStoreName(n.kids[p[0]], name)
    else p[0] < |n.kids| && CountedTarget(n.kids[p[0]], p[1..], name)
  }

  /** The hits among an Assign's first j targets are exactly its Store Names `name` there, each once. */
  lemma {:induction false} TargetHitsExactly(s: Node, j: nat, name: string, p: Path)
    requires s.kind.Assign? && Shaped(s) && j <= |s.kids| - 1
    ensures p in TargetHits(s, j, name) <==> |p| == 1 && p[0] < j && IsStoreName(s.kids[p[0]], name)
    ensures Distinct(TargetHits(s, j, name)) && Below(TargetHits(s, j, name), j)
    decreases j
  {
    if j > 0 {
      TargetHitsExactly(s, j - 1, name, p);
      var front := TargetHits(s, j - 1, name);
      if IsStoreName(s.kids[j - 1], name) {
        var top: seq<Path> := [[]];
        assert Under(j - 1, top)[0] == [j - 1] + top[0] == [j - 1];
        assert Under(j - 1, top) == [[j - 1]];
        DistinctUnder(front, j - 1, top);
        assert p == [j - 1] <==> |p| == 1 && p[0] == j - 1;
      }
    }
  }

  /** The counter counts a position exactly when it is a counted target. */
  lemma {:induction false} CountedTargetsExactly(n: Node, name: string, p: Path)
    requires WellFormed(n)
    ensures p in CountedTargets(n, name) <==> CountedTarget(n, p, name)
    decreases n, 1
  {
    if n.kind.Assign? {
      TargetHitsExactly(n, |n.kids| - 1, name, p);
    } else {
      CountedTargetsInExactly(n, |n.kids|, name, p);
    }
  }

  lemma {:induction false} CountedTargetsInExactly(n: Node, i: nat, name: string, p: Path)
    requires WellFormed(n) && !n.kind.Assign? && i <= |n.kids|
    ensures p in CountedTargetsIn(n, i, name) <==> p != [] && p[0] < i && CountedTarget(n.kids[p[0]], p[1..], name)
    decreases n, 0, i
  {
    if i > 0 {
      CountedTargetsInExactly(n, i - 1, name, p);
      UnderHas(i - 1, CountedTargets(n.kids[i - 1], name), p);
      if p != [] && p[0] == i - 1 {
        CountedTargetsExactly(n.kids[i - 1], name, p[1..]);
      }
    }
  }

  /** `AssignmentCounter(name).visit(n)`: how many targets it counts. */
  function Count(n: Node, name: string): nat
    requires WellFormed(n)
  {
    |CountedTargets(n, name)|
  }

  /** No assignment statement under n, n included. */
  predicate NoAssign(n: Node) {
    !n.kind.Assign? && forall k :: 0 <= k < |n.kids| ==> NoAssign(n.kids[k])
  }

  /**
   * Without an assignment statement nothing is counted, so an AugAssign or a
   * name inside a Tuple target never adds to the count.
   */
  lemma {:induction false} NoAssignNoCount(n: Node, name: string)
    requires WellFormed(n) && NoAssign(n)
    ensures Count(n, name) == 0
    decreases n, 1
  {
    NoAssignNoCountIn(n, |n.kids|, name);
  }

  lemma {:induction false} NoAssignNoCountIn(n: Node, i: nat, name: string)
    requires WellFormed(n) && NoAssign(n) && i <= |n.kids|
    ensures CountedTargetsIn(n, i, name) == []
    decreases n, 0, i
  {
    if i > 0 {
      NoAssignNoCountIn(n, i - 1, name);
      NoAssignNoCount(n.kids[i - 1], name);
    }
  }

  /** An Assign counts its own Name targets only: a Tuple target adds nothing, whatever it holds. */
  lemma AssignCount(s: Node, name: string)
    requires WellFormed(s) && s.kind.Assign?
    ensures Count(s, name) == 0 <==> forall k :: 0 <= k < |s.kids| - 1 ==> !IsStoreName(s.kids[k], name)
  {
  }

  class AssignmentCounter {
    const name: string
    var count: nat

    constructor(name: string)
      ensures this.name == name && count == 0
    {
      this.name := name;
      count := 0;
    }

    method Increment()
      modifies this
      ensures count == old(count) + 1
    {
      count := count + 1;
    }

    /**
     * `visit(n)`: walks n, adding one per counted target, and returns the
     * counter, which keeps what earlier visits counted.
     */
    method Visit(n: Node) returns (r: nat)
      requires WellFormed(n)
      modifies this
      ensures count == old(count) + Count(n, name) && r == count
      decreases n
    {
      if n.kind.Assign? {
        VisitAssign(n);
        return count;
      }
      var i := 0;
      while i < |n.kids|
        invariant i <= |n.kids|
        invariant count == old(count) + |CountedTargetsIn(n, i, name)|
      {
        var _ := Visit(n.kids[i]);
        i := i + 1;
      }
      r := count;
    }

    method VisitAssign(s: Node)
      requires s.kind.Assign? && Shaped(s)
      modifies this
      ensures count == old(count) + |TargetHits(s, |s.kids| - 1, name)|
    {
      var j := 0;
      while j < |s.kids| - 1
        invariant j <= |s.kids| - 1
        invariant count == old(count) + |TargetHits(s, j, name)|
      {
        var target := s.kids[j];
        if target.kind.Name? && target.kind.id == name && target.kind.ctx == Store {
          Increment();
        }
        j := j + 1;
      }
    }
  }

  // ----- ConstantFinder -----

  /** A target whose assignments the finder takes as a constant: a Store-context Name counted fewer than twice in root. */
  predicate Candidate(root: Node, t: Node)
    requires WellFormed(root)
  {
    t.kind.Name? && t.kind.ctx == Store && Count(root, t.kind.id) < 2
  }

  /** The indices of the candidates among an Assign's first j targets. */
  ghost function CandidateTargets(root: Node, s: Node, j: nat): set<nat>
    requires WellFormed(root) && s.kind.Assign? && Shaped(s) && j <= |s.kids| - 1
  {
    set k: nat | k < j && Candidate(root, s.kids[k])
  }

  lemma CandidateTargetsStep(root: Node, s: Node, j: nat)
    requires WellFormed(root) && s.kind.Assign? && Shaped(s) && 0 < j <= |s.kids| - 1
    ensures CandidateTargets(root, s, j) ==
      CandidateTargets(root, s, j - 1) + (if Candidate(root, s.kids[j - 1]) then {j - 1} else {})
    ensures j - 1 !in CandidateTargets(root, s, j - 1)
  {
  }

  /** An Assign is reported once per candidate target among its first j targets, always at its own position. */
  function AssignReports(root: Node, s: Node, at: Path, j: nat): (r: seq<Path>)
    requires WellFormed(root) && s.kind.Assign? && Shaped(s) && j <= |s.kids| - 1
    ensures forall k :: 0 <= k < |r| ==> r[k] == at
    ensures |r| == |CandidateTargets(root, s, j)|
    ensures |r| > 0 <==> exists k :: 0 <= k < j && Candidate(root, s.kids[k])
  {
    if j == 0 then
      assert CandidateTargets(root, s, 0) == {};
      []
    else
      var front := AssignReports(root, s, at, j - 1);
      CandidateTargetsStep(root, s, j);
      if Candidate(root, s.kids[j - 1]) then front + [at] else front
  }

  /** A reported assignment: an Assign with a candidate target. */
  predicate Reportable(root: Node, s: Node)
    requires WellFormed(root)
  {
    s.kind.Assign? && Shaped(s) && exists k :: 0 <= k < |s.kids| - 1 && Candidate(root, s.kids[k])
  }

  /**
   * What the finder over root adds when it visits n found at position `at`:
   * each Assign is added once per candidate target and not entered; every
   * other node is entered.
   */
  function Reports(root: Node, n: Node, at: Path): (r: seq<Path>)
    requires WellFormed(root) && WellFormed(n)
    decreases n, 1
  {
    if n.kind.Assign? then AssignReports(root, n, at, |n.kids| - 1)
    else ReportsIn(root, n, at, |n.kids|)
  }

  function ReportsIn(root: Node, n: Node, at: Path, i: nat): (r: seq<Path>)
    requires WellFormed(root) && WellFormed(n) && i <= |n.kids|
    decreases n, 0, i
  {
    if i == 0 then []
    else ReportsIn(root, n, at, i - 1) + Reports(root, n.kids[i - 1], at + [i - 1])
  }

  /** Every report of a visit of n found at `at` is `at` extended to a reportable assignment in n. */
  predicate ReportsBelow(root: Node, n: Node, at: Path, r: seq<Path>)
    requires WellFormed(root)
  {
    forall k :: 0 <= k < |r| ==>
      IsPrefix(at, r[k]) && ValidPath(n, r[k][|at|..]) && Reportable(root, At(n, r[k][|at|..]))
  }

  lemma {:induction false} ReportsAreBelow(root: Node, n: Node, at: Path)
    requires WellFormed(root) && WellFormed(n)
    ensures ReportsBelow(root, n, at, Reports(root, n, at))
    decreases n, 1
  {
    if n.kind.Assign? {
      var r := AssignReports(root, n, at, |n.kids| - 1);
      forall k | 0 <= k < |r|
        ensures IsPrefix(at, r[k]) && r[k][|at|..] == []
      {
        assert r[k] == at;
      }
    } else {
      ReportsInAreBelow(root, n, at, |n.kids|);
    }
  }

  lemma {:induction false} ReportsInAreBelow(root: Node, n: Node, at: Path, i: nat)
    requires WellFormed(root) && WellFormed(n) && i <= |n.kids|
    ensures ReportsBelow(root, n, at, ReportsIn(root, n, at, i))
    decreases n, 0, i
  {
    if i > 0 {
      ReportsInAreBelow(root, n, at, i - 1);
      ReportsAreBelow(root, n.kids[i - 1], at + [i - 1]);
      var more := Reports(root, n.kids[i - 1], at + [i - 1]);
      forall k | 0 <= k < |more|
        ensures IsPrefix(at, more[k]) && ValidPath(n, more[k][|at|..]) && Reportable(root, At(n, more[k][|at|..]))
      {
        ReportsStep(n, at, i - 1, more[k]);
      }
      var front := ReportsIn(root, n, at, i - 1);
      assert ReportsIn(root, n, at, i) == front + more;
      forall k | 0 <= k < |front + more|
        ensures IsPrefix(at, (front + more)[k]) && ValidPath(n, (front + more)[k][|at|..])
          && Reportable(root, At(n, (front + more)[k][|at|..]))
      {
        if k >= |front| {
          assert (front + more)[k] == more[k - |front|];
        }
      }
    }
  }

  /** A position below the i-th child of n, found at `at`, is a position below n. */
  lemma ReportsStep(n: Node, at: Path, i: nat, p: Path)
    requires i < |n.kids| && IsPrefix(at + [i], p) && ValidPath(n.kids[i], p[|at| + 1..])
    ensures IsPrefix(at, p) && ValidPath(n, p[|at|..]) && At(n, p[|at|..]) == At(n.kids[i], p[|at| + 1..])
  {
    assert p[..|at|] == (at + [i])[..|at|] == at;
    assert p[|at|] == i;
    assert p[|at|..][1..] == p[|at| + 1..];
  }

  /** The visited tree's reports are positions of reportable assignments in it. */
  lemma ReportsSound(root: Node, n: Node, p: Path)
    requires WellFormed(root) && WellFormed(n) && p in Reports(root, n, [])
    ensures ValidPath(n, p) && Reportable(root, At(n, p))
  {
    ReportsAreBelow(root, n, []);
    var k :| 0 <= k < |Reports(root, n, [])| && Reports(root, n, [])[k] == p;
    assert p[0..] == p;
  }

  /**
   * Conversely, each outermost Assign of the visited tree is reported once
   * per candidate target it has: at least once exactly when it is reportable.
   */
  lemma ReportsComplete(root: Node, n: Node, q: Path)
    requires WellFormed(root) && WellFormed(n) && OutermostAssign(n, q)
    ensures ValidPath(n, q) && At(n, q).kind.Assign? && Shaped(At(n, q))
    ensures multiset(Reports(root, n, []))[q] == |CandidateTargets(root, At(n, q), |At(n, q).kids| - 1)|
    ensures q in Reports(root, n, []) <==> Reportable(root, At(n, q))
  {
    ReportsCountAtRoot(root, n, q);
    ReportsPresent(root, n, q);
  }

  /** An outermost Assign is among the reports exactly when it is reportable. */
  lemma ReportsPresent(root: Node, n: Node, q: Path)
    requires WellFormed(root) && WellFormed(n) && OutermostAssign(n, q)
    ensures ValidPath(n, q)
    ensures q in Reports(root, n, []) <==> Reportable(root, At(n, q))
  {
    OutermostAssignAt(n, q);
    if q in Reports(root, n, []) {
      ReportsSound(root, n, q);
    } else {
      UnreportedNotReportable(root, n, q);
    }
  }

  /** An outermost Assign that is not reported has no candidate target. */
  lemma UnreportedNotReportable(root: Node, n: Node, q: Path)
    requires WellFormed(root) && WellFormed(n) && OutermostAssign(n, q) && q !in Reports(root, n, [])
    ensures ValidPath(n, q) && !Reportable(root, At(n, q))
  {
    ReportsCountAtRoot(root, n, q);
    var s := At(n, q);
    var c := |CandidateTargets(root, s, |s.kids| - 1)|;
    assert c == 0 by {
      var r := Reports(root, n, []);
      assert multiset(r)[q] == c;
      assert q !in multiset(r);
    }
    ReportableHasCandidates(root, s);
  }

  /** ReportsCount for the visit that starts at the root. */
  lemma ReportsCountAtRoot(root: Node, n: Node, q: Path)
    requires WellFormed(root) && WellFormed(n) && OutermostAssign(n, q)
    ensures ValidPath(n, q) && At(n, q).kind.Assign? && WellFormed(At(n, q))
    ensures multiset(Reports(root, n, []))[q] == |CandidateTargets(root, At(n, q), |At(n, q).kids| - 1)|
  {
    EmptyPrefix(q);
    ReportsCount(root, n, [], q);
  }

  /** The empty position is a prefix that leaves a path unchanged. */
  lemma EmptyPrefix(q: Path)
    ensures [] + q == q
  {
  }


  /** An Assign is reportable exactly when it has a candidate target. */
  lemma ReportableHasCandidates(root: Node, s: Node)
    requires WellFormed(root) && s.kind.Assign? && Shaped(s)
    ensures Reportable(root, s) <==> |CandidateTargets(root, s, |s.kids| - 1)| > 0
  {
    if Reportable(root, s) {
      var k :| 0 <= k < |s.kids| - 1 && Candidate(root, s.kids[k]);
      assert k in CandidateTargets(root, s, |s.kids| - 1);
    }
  }

  lemma {:induction false} ReportsCount(root: Node, n: Node, at: Path, q: Path)
    requires WellFormed(root) && WellFormed(n) && OutermostAssign(n, q)
    ensures ValidPath(n, q) && At(n, q).kind.Assign? && WellFormed(At(n, q))
    ensures multiset(Reports(root, n, at))[at + q] == |CandidateTargets(root, At(n, q), |At(n, q).kids| - 1)|
    decreases n, 1
  {
    OutermostAssignAt(n, q);
    if n.kind.Assign? {
      assert q == [] && at + q == at;
      AllSameCount(Reports(root, n, at), at);
    } else {
      ReportsInCount(root, n, at, q);
    }
  }

  /** A visited node that is not an Assign reports q through the one child that q enters. */
  lemma ReportsInCount(root: Node, n: Node, at: Path, q: Path)
    requires WellFormed(root) && WellFormed(n) && !n.kind.Assign? && OutermostAssign(n, q)
    ensures ValidPath(n, q) && At(n, q).kind.Assign? && Shaped(At(n, q))
    ensures multiset(ReportsIn(root, n, at, |n.kids|))[at + q] == |CandidateTargets(root, At(n, q), |At(n, q).kids| - 1)|
    decreases n, 0, |n.kids|, 3
  {
    var c := ChildCounts(root, n, at, q);
    ChildCountsSum(root, n, at, |n.kids|, at + q, q[0], c);
  }

  /** Of the children of a node that is not an Assign, only the one q enters reports q, c times for c the candidates of its Assign. */
  lemma ChildCounts(root: Node, n: Node, at: Path, q: Path) returns (c: nat)
    requires WellFormed(root) && WellFormed(n) && !n.kind.Assign? && OutermostAssign(n, q)
    ensures ValidPath(n, q) && q != [] && q[0] < |n.kids| && At(n, q).kind.Assign? && Shaped(At(n, q))
    ensures c == |CandidateTargets(root, At(n, q), |At(n, q).kids| - 1)|
    ensures forall j :: 0 <= j < |n.kids| ==> multiset(Reports(root, n.kids[j], at + [j]))[at + q] == if q[0] == j then c else 0
    decreases n, 0, |n.kids|, 2
  {
    OutermostAssignAt(n, q);
    c := |CandidateTargets(root, At(n, q), |At(n, q).kids| - 1)|;
    forall j | 0 <= j < |n.kids|
      ensures multiset(Reports(root, n.kids[j], at + [j]))[at + q] ==
        if q[0] == j then |CandidateTargets(root, At(n, q), |At(n, q).kids| - 1)| else 0
    {
      ReportsChildCount(root, n, at, j, q);
    }
  }

  /**
   * When only child k reports x, c times, the visits of the first i
   * children report x c times if they include child k, and never otherwise.
   */
  lemma ChildCountsSum(root: Node, n: Node, at: Path, i: nat, x: Path, k: nat, c: nat)
    requires WellFormed(root) && WellFormed(n) && i <= |n.kids|
    requires forall j :: 0 <= j < |n.kids| ==> multiset(Reports(root, n.kids[j], at + [j]))[x] == if k == j then c else 0
    ensures multiset(ReportsIn(root, n, at, i))[x] == if k < i then c else 0
  {
    var parts := ChildReports(root, n, at, i);
    ReportsInConcat(root, n, at, i);
    ConcatCount(parts, x, k, c);
  }

  /** The reports of the visits of the first i children, one list per child. */
  function ChildReports(root: Node, n: Node, at: Path, i: nat): (r: seq<seq<Path>>)
    requires WellFormed(root) && WellFormed(n) && i <= |n.kids|
    ensures |r| == i && forall j :: 0 <= j < i ==> r[j] == Reports(root, n.kids[j], at + [j])
  {
    if i == 0 then [] else ChildReports(root, n, at, i - 1) + [Reports(root, n.kids[i - 1], at + [i - 1])]
  }

  /** The lists of a sequence of lists, one after the other. */
  function Concat(parts: seq<seq<Path>>): seq<Path> {
    if parts == [] then [] else Concat(parts[..|parts| - 1]) + parts[|parts| - 1]
  }

  /** Visiting the first i children reports their lists one after the other. */
  lemma {:induction false} ReportsInConcat(root: Node, n: Node, at: Path, i: nat)
    requires WellFormed(root) && WellFormed(n) && i <= |n.kids|
    ensures ReportsIn(root, n, at, i) == Concat(ChildReports(root, n, at, i))
    decreases i
  {
    if i > 0 {
      ReportsInConcat(root, n, at, i - 1);
      assert ChildReports(root, n, at, i)[..i - 1] == ChildReports(root, n, at, i - 1);
    }
  }

  /** When only list k holds x, c times, the lists joined hold x c times if list k is among them. */
  lemma {:induction false} ConcatCount(parts: seq<seq<Path>>, x: Path, k: nat, c: nat)
    requires forall j :: 0 <= j < |parts| ==> multiset(parts[j])[x] == if k == j then c else 0
    ensures multiset(Concat(parts))[x] == if k < |parts| then c else 0
    decreases |parts|
  {
    if parts != [] {
      var front := parts[..|parts| - 1];
      assert forall j :: 0 <= j < |front| ==> front[j] == parts[j];
      ConcatCount(front, x, k, c);
    }
  }

  /** The j-th visited child reports q as often as its Assign has candidates when q enters it, and never otherwise. */
  lemma ReportsChildCount(root: Node, n: Node, at: Path, j: nat, q: Path)
    requires WellFormed(root) && WellFormed(n) && !n.kind.Assign? && j < |n.kids| && OutermostAssign(n, q)
    ensures ValidPath(n, q) && q != [] && At(n, q).kind.Assign? && WellFormed(At(n, q))
    ensures multiset(Reports(root, n.kids[j], at + [j]))[at + q] ==
      if q[0] == j then |CandidateTargets(root, At(n, q), |At(n, q).kids| - 1)| else 0
    decreases n, 0, j, 2
  {
    OutermostAssignAt(n, q);
    if q[0] == j {
      ReportsSameChild(root, n, at, j, q);
    } else {
      ReportsOtherChild(root, n, at, j, q);
    }
  }

  /** The child that q enters reports q as often as its Assign has candidates. */
  lemma ReportsSameChild(root: Node, n: Node, at: Path, j: nat, q: Path)
    requires WellFormed(root) && WellFormed(n) && !n.kind.Assign? && OutermostAssign(n, q) && q != [] && q[0] == j
    ensures j < |n.kids| && ValidPath(n, q) && At(n, q).kind.Assign? && WellFormed(At(n, q))
    ensures multiset(Reports(root, n.kids[j], at + [j]))[at + q] ==
      |CandidateTargets(root, At(n, q), |At(n, q).kids| - 1)|
    decreases n, 0, j, 0
  {
    OutermostAssignAt(n, q);
    ReportsCount(root, n.kids[j], at + [j], q[1..]);
    assert (at + [j]) + q[1..] == at + q;
  }

  /** A child that q does not enter never reports q. */
  lemma ReportsOtherChild(root: Node, n: Node, at: Path, j: nat, q: Path)
    requires WellFormed(root) && WellFormed(n) && j < |n.kids| && q != [] && q[0] != j
    ensures multiset(Reports(root, n.kids[j], at + [j]))[at + q] == 0
  {
    assert (at + q)[|at|] == q[0];
    ReportsElsewhere(root, n.kids[j], at + [j], at + q);
  }

  /** The reports of a visit at `at` all extend `at`, so a position that leaves it is not among them. */
  lemma ReportsElsewhere(root: Node, n: Node, at: Path, x: Path)
    requires WellFormed(root) && WellFormed(n) && !IsPrefix(at, x)
    ensures x !in Reports(root, n, at)
  {
    ReportsAreBelow(root, n, at);
  }

  class ConstantFinder {
    /** the accumulator the finder reports into */
    const base: NodeFinder

    constructor(root: Node)
      ensures fresh(base) && base.root == root && base.results == []
    {
      base := new NodeFinder(root);
    }

    /** `visit(n)`: the results so far, after n's reports are added; they are not reset. */
    method Visit(n: Node) returns (r: seq<Path>)
      requires WellFormed(base.root) && WellFormed(n)
      modifies base
      ensures base.results == old(base.results) + Reports(base.root, n, []) && r == base.results
    {
      Walk(n, []);
      r := base.results;
    }

    method Walk(n: Node, at: Path)
      requires WellFormed(base.root) && WellFormed(n)
      modifies base
      ensures base.results == old(base.results) + Reports(base.root, n, at)
      decreases n
    {
      if n.kind.Assign? {
        VisitAssign(n, at);
        return;
      }
      var i := 0;
      while i < |n.kids|
        invariant i <= |n.kids|
        invariant base.results == old(base.results) + ReportsIn(base.root, n, at, i)
      {
        assert WellFormed(n.kids[i]);
        Walk(n.kids[i], at + [i]);
        i := i + 1;
      }
    }

    method VisitAssign(s: Node, at: Path)
      requires WellFormed(base.root) && s.kind.Assign? && Shaped(s)
      modifies base
      ensures base.results == old(base.results) + AssignReports(base.root, s, at, |s.kids| - 1)
    {
      var j := 0;
      while j < |s.kids| - 1
        invariant j <= |s.kids| - 1
        invariant base.results == old(base.results) + AssignReports(base.root, s, at, j)
      {
        var target := s.kids[j];
        if target.kind.Name? && target.kind.ctx == Store {
          var counter := new AssignmentCounter(target.kind.id);
          var c := counter.Visit(base.root);
          if c < 2 {
            base.Add(at);
          }
        }
        j := j + 1;
      }
    }
  }

  // ----- ConstantInliner -----

  predicate Assigns(constants: seq<Node>) {
    forall k :: 0 <= k < |constants| ==> constants[k].kind.Assign? && Shaped(constants[k])
  }

  /** The last of the constants whose targets include a Name `name`. */
  function LastNaming(constants: seq<Node>, name: string): (r: Option<Node>)
    requires Assigns(constants)
    ensures r.None? <==> forall k :: 0 <= k < |constants| ==> !NameAmong(name, Targets(constants[k]))
    ensures r.Some? ==>
      exists k :: 0 <= k < |constants| && constants[k] == r.value && NameAmong(name, Targets(constants[k])) &&
        (forall j :: k < j < |constants| ==> !NameAmong(name, Targets(constants[j])))
  {
    if constants == [] then None
    else
      var last := constants[|constants| - 1];
      if NameAmong(name, Targets(last)) then Some(last)
      else LastNaming(constants[..|constants| - 1], name)
  }

  /**
   * `_get_constant_by_name(name)`: a reduce over the constants in order, each
   * step testing `name in (t.id for t in next.targets)`, which fails on a
   * target that is not a Name before a match.
   */
  function ConstantByName(constants: seq<Node>, name: string): (r: Result<Option<Node>>)
    requires Assigns(constants)
    ensures r.Ok? ==> r.value == LastNaming(constants, name)
    ensures (forall k :: 0 <= k < |constants| ==> AllNames(Targets(constants[k]))) ==> r.Ok?
    ensures r.Err? ==> r.error == AttributeError
  {
    if constants == [] then Ok(None)
    else
      match ConstantByName(constants[..|constants| - 1], name)
      case Err(e) => Err(e)
      case Ok(current) =>
        var next := constants[|constants| - 1];
        match IdIn(name, Targets(next))
        case Err(e) => Err(e)
        case Ok(hit) => Ok(if hit then Some(next) else current)
  }

  /**
   * The rewrite the inliner means: each Load-context Name some constant
   * assigns becomes the last such constant's value, located at it, and is
   * not visited further; every other node is kept with its children rewritten.
   */
  function Substitute(n: Node, constants: seq<Node>): (r: Node)
    requires Assigns(constants)
  {
    if IsLoadName(n) && LastNaming(constants, n.kind.id).Some? then
      var c := LastNaming(constants, n.kind.id).value;
      CopyLoc(AssignValue(c), c)
    else n.(kids := seq(|n.kids|, k requires 0 <= k < |n.kids| => Substitute(n.kids[k], constants)))
  }

  /**
   * The ConstantInliner pass: every Name, Load or Store, is looked up first,
   * so a failing lookup fails the pass; a Load with a constant is replaced.
   */
  function Inlined(n: Node, constants: seq<Node>): (r: Result<Node>)
    requires Assigns(constants)
    decreases n, 2
  {
    if n.kind.Name? then
      match ConstantByName(constants, n.kind.id)
      case Err(e) => Err(e)
      case Ok(c) =>
        if n.kind.ctx == Load && c.Some? then Ok(CopyLoc(AssignValue(c.value), c.value))
        else Rebuilt(n, constants)
    else Rebuilt(n, constants)
  }

  /** `generic_visit`: n with each child replaced by its visit. */
  function Rebuilt(n: Node, constants: seq<Node>): (r: Result<Node>)
    requires Assigns(constants)
    decreases n, 1
  {
    match InlinedKids(n, |n.kids|, constants)
    case Err(e) => Err(e)
    case Ok(kids) => Ok(n.(kids := kids))
  }

  function InlinedKids(n: Node, i: nat, constants: seq<Node>): (r: Result<seq<Node>>)
    requires Assigns(constants) && i <= |n.kids|
    decreases n, 0, i
  {
    if i == 0 then Ok([])
    else
      match InlinedKids(n, i - 1, constants)
      case Err(e) => Err(e)
      case Ok(front) =>
        match Inlined(n.kids[i - 1], constants)
        case Err(e) => Err(e)
        case Ok(kid) => Ok(front + [kid])
  }

  /** Where the pass succeeds it is the intended rewrite. */
  lemma {:induction false} InlinedAgrees(n: Node, constants: seq<Node>)
    requires Assigns(constants)
    ensures Inlined(n, constants).Ok? ==> Inlined(n, constants).value == Substitute(n, constants)
    decreases n
  {
    InlinedKidsEach(n, |n.kids|, constants);
    forall k | 0 <= k < |n.kids|
      ensures Inlined(n.kids[k], constants).Ok? ==> Inlined(n.kids[k], constants).value == Substitute(n.kids[k], constants)
    {
      InlinedAgrees(n.kids[k], constants);
    }
  }

  /** Where the children's visits succeed, each child is replaced by its own visit. */
  lemma {:induction false} InlinedKidsEach(n: Node, i: nat, constants: seq<Node>)
    requires Assigns(constants) && i <= |n.kids|
    ensures InlinedKids(n, i, constants).Ok? ==>
      |InlinedKids(n, i, constants).value| == i &&
      forall k :: 0 <= k < i ==>
        Inlined(n.kids[k], constants).Ok? && InlinedKids(n, i, constants).value[k] == Inlined(n.kids[k], constants).value
  {
    if i > 0 && InlinedKids(n, i, constants).Ok? {
      InlinedKidsStep(n, i, constants);
      InlinedKidsEach(n, i - 1, constants);
    }
  }

  /** The pass succeeds whenever every constant's targets are all Names: no lookup then raises. */
  lemma {:induction false} InlinedSucceeds(n: Node, constants: seq<Node>)
    requires Assigns(constants) && forall k :: 0 <= k < |constants| ==> AllNames(Targets(constants[k]))
    ensures Inlined(n, constants).Ok?
    decreases n, 1
  {
    InlinedKidsSucceed(n, |n.kids|, constants);
  }

  lemma {:induction false} InlinedKidsSucceed(n: Node, i: nat, constants: seq<Node>)
    requires Assigns(constants) && i <= |n.kids|
    requires forall k :: 0 <= k < |constants| ==> AllNames(Targets(constants[k]))
    ensures InlinedKids(n, i, constants).Ok?
    decreases n, 0, i
  {
    if i > 0 {
      InlinedKidsSucceed(n, i - 1, constants);
      InlinedSucceeds(n.kids[i - 1], constants);
      InlinedKidsStep(n, i, constants);
    }
  }

  /** One more child: the prefix and the child's visit must both succeed, and the child's result is appended. */
  lemma InlinedKidsStep(n: Node, i: nat, constants: seq<Node>)
    requires Assigns(constants) && 0 < i <= |n.kids|
    ensures InlinedKids(n, i, constants).Ok? <==>
      InlinedKids(n, i - 1, constants).Ok? && Inlined(n.kids[i - 1], constants).Ok?
    ensures InlinedKids(n, i, constants).Ok? ==>
      InlinedKids(n, i, constants).value == InlinedKids(n, i - 1, constants).value + [Inlined(n.kids[i - 1], constants).value]
  {
  }

  /**
   * The rewrite works position by position on a well-formed tree: each
   * position is still there, a Load of a constant's name now holds the last
   * such constant's value, and any other Name is kept as it was.
   */
  lemma {:induction false} SubstituteAt(n: Node, constants: seq<Node>, p: Path)
    requires Assigns(constants) && WellFormed(n) && ValidPath(n, p)
    ensures ValidPath(Substitute(n, constants), p)
    ensures At(Substitute(n, constants), p) == Substitute(At(n, p), constants)
    ensures var m := At(n, p);
      m.kind.Name? ==>
        if m.kind.ctx == Load && LastNaming(constants, m.kind.id).Some?
        then At(Substitute(n, constants), p) == CopyLoc(AssignValue(LastNaming(constants, m.kind.id).value), LastNaming(constants, m.kind.id).value)
        else At(Substitute(n, constants), p) == m
    decreases |p|
  {
    if p != [] {
      SubstituteAt(n.kids[p[0]], constants, p[1..]);
    } else if n.kind.Name? && !(n.kind.ctx == Load && LastNaming(constants, n.kind.id).Some?) {
      var kids := seq(|n.kids|, k requires 0 <= k < |n.kids| => Substitute(n.kids[k], constants));
      assert kids == n.kids == [];
    }
  }

  class ConstantInliner {
    const constants: seq<Node>

    constructor(constants: seq<Node>)
      ensures this.constants == constants
    {
      this.constants := constants;
    }

    /** `visit(n)`: the rewritten tree, or the error a lookup raised. */
    method Visit(n: Node) returns (r: Result<Node>)
      requires Assigns(constants)
      ensures r == Inlined(n, constants)
      decreases n, 2
    {
      if n.kind.Name? {
        r := VisitName(n);
      } else {
        r := GenericVisit(n);
      }
    }

    method VisitName(n: Node) returns (r: Result<Node>)
      requires Assigns(constants) && n.kind.Name?
      ensures r == Inlined(n, constants)
      decreases n, 1
    {
      var constant := ConstantByName(constants, n.kind.id);
      if constant.Err? {
        return Err(constant.error);
      }
      if n.kind.ctx == Load && constant.value.Some? {
        return Ok(CopyLoc(AssignValue(constant.value.value), constant.value.value));
      }
      r := GenericVisit(n);
    }

    method GenericVisit(n: Node) returns (r: Result<Node>)
      requires Assigns(constants)
      ensures r == Rebuilt(n, constants)
      decreases n, 0
    {
      var kids: seq<Node> := [];
      var i := 0;
      while i < |n.kids|
        invariant i <= |n.kids|
        invariant InlinedKids(n, i, constants) == Ok(kids)
      {
        var kid := Visit(n.kids[i]);
        if kid.Err? {
          InlinedKidsFail(n, i + 1, |n.kids|, constants, kid.error);
          return Err(kid.error);
        }
        kids := kids + [kid.value];
        i := i + 1;
      }
      r := Ok(n.(kids := kids));
    }
  }

  /** Once a child's visit fails, the visit of every longer prefix fails the same way. */
  lemma {:induction false} InlinedKidsFail(n: Node, i: nat, j: nat, constants: seq<Node>, e: Error)
    requires Assigns(constants) && 0 < i <= j <= |n.kids|
    requires InlinedKids(n, i - 1, constants).Ok? && Inlined(n.kids[i - 1], constants) == Err(e)
    ensures InlinedKids(n, j, constants) == Err(e)
    decreases j
  {
    if j > i {
      InlinedKidsFail(n, i, j - 1, constants, e);
    }
  }
}
