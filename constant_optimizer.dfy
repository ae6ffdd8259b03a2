/**
 * Constant inlining (pycc's `optimizers.constant`): a name assigned exactly
 * once in a module, to a number, a string or another name, is a constant;
 * every load of it is replaced by the assigned value.
 *
 * ConstantCheck and ConstantFinder are visitors that update their fields as
 * they walk the tree; they are classes whose methods are proved equal to the
 * fold functions below. The inliner rebuilds the tree and is a function.
 */
module ConstantOptimizer {
  import opened Wrappers
  import opened Syntax
  import opened Fixtures
  import Registry

  // ----- ConstantCheck: what one assignment statement counts -----

  /** `n` is a Name in Store context naming `name`; an unset name matches nothing. */
  predicate StoresTo(n: Node, name: Option<string>) {
    n.kind.Name? && n.kind.ctx == Store && name == Some(n.kind.id)
  }

  /** A value worth inlining: a number, a string or a name. */
  predicate Simple(v: Node) {
    v.kind.Num? || v.kind.Str? || v.kind.Name?
  }

  /** Index of the first tuple element that stores to `name`. */
  function FirstStore(elts: seq<Node>, name: Option<string>): (r: Option<nat>)
    ensures r.Some? ==> r.value < |elts| && StoresTo(elts[r.value], name)
    ensures r.Some? ==> forall j :: 0 <= j < r.value ==> !StoresTo(elts[j], name)
    ensures r.None? ==> forall j :: 0 <= j < |elts| ==> !StoresTo(elts[j], name)
  {
    if elts == [] then None
    else if StoresTo(elts[0], name) then Some(0)
    else match FirstStore(elts[1..], name)
      case None => None
      case Some(k) => Some(k + 1)
  }

  /** The element loop of `visit_Assign`, which stops at the first element storing to `name`. */
  method ScanTuple(elts: seq<Node>, name: Option<string>) returns (idx: Option<nat>)
    ensures idx == FirstStore(elts, name)
  {
    var i := 0;
    while i < |elts|
      invariant i <= |elts|
      invariant forall j :: 0 <= j < i ==> !StoresTo(elts[j], name)
    {
      if StoresTo(elts[i], name) {
        return Some(i);
      }
      i := i + 1;
    }
    return None;
  }

  /**
   * The value `visit_Assign` (also bound to AugAssign) counts for `name` in
   * statement s, whose target is its first child: the whole value for a Name
   * target, the element at the same index for a Tuple target with a Tuple
   * value, nothing otherwise.
   */
  function Counted(s: Node, name: Option<string>): (r: Result<Option<Node>>)
    requires (s.kind.Assign? || s.kind.AugAssign?) && Shaped(s)
    ensures StoresTo(s.kids[0], name) ==> r == Ok(Some(AssignValue(s)))
    ensures !s.kids[0].kind.Tuple? && !StoresTo(s.kids[0], name) ==> r == Ok(None)
    ensures !AssignValue(s).kind.Tuple? && !StoresTo(s.kids[0], name) ==> r == Ok(None)
    ensures s.kids[0].kind.Tuple? && AssignValue(s).kind.Tuple? ==>
      (r.Err? <==> exists k :: 0 <= k < |s.kids[0].kids| && StoresTo(s.kids[0].kids[k], name) && k >= |AssignValue(s).kids|
                               && forall j :: 0 <= j < k ==> !StoresTo(s.kids[0].kids[j], name))
    ensures s.kids[0].kind.Tuple? && r.Ok? && r.value.Some? ==>
      exists k :: 0 <= k < |s.kids[0].kids| && k < |AssignValue(s).kids| && StoresTo(s.kids[0].kids[k], name)
                  && r.value.value == AssignValue(s).kids[k]
    ensures r.Err? ==> r.error == IndexError
  {
    var target := s.kids[0];
    var value := AssignValue(s);
    if StoresTo(target, name) then Ok(Some(value))
    else if target.kind.Tuple? && value.kind.Tuple? then
      match FirstStore(target.kids, name)
      case None => Ok(None)
      case Some(idx) => if idx < |value.kids| then Ok(Some(value.kids[idx])) else Err(IndexError)
    else Ok(None)
  }

  /**
   * The values counted for `name` under n, in visiting order. Assignment
   * statements are not descended into; every other node is, nested function
   * and class bodies included.
   */
  function Assignments(n: Node, name: Option<string>): (r: Result<seq<Node>>)
    requires WellFormed(n)
    ensures r.Err? ==> r.error == IndexError
    decreases n, 1
  {
    if n.kind.Assign? || n.kind.AugAssign? then
      match Counted(n, name)
      case Err(e) => Err(e)
      case Ok(v) => Ok(if v.Some? then [v.value] else [])
    else
      AssignmentsIn(n, |n.kids|, name)
  }

  /** Assignments under the first i children of n. */
  function AssignmentsIn(n: Node, i: nat, name: Option<string>): (r: Result<seq<Node>>)
    requires WellFormed(n) && i <= |n.kids|
    ensures r.Err? ==> r.error == IndexError
    decreases n, 0, i
  {
    if i == 0 then Ok([])
    else
      match AssignmentsIn(n, i - 1, name)
      case Err(e) => Err(e)
      case Ok(front) =>
        match Assignments(n.kids[i - 1], name)
        case Err(e) => Err(e)
        case Ok(more) => Ok(front + more)
  }

  predicate HasComplex(vals: seq<Node>) {
    exists k :: 0 <= k < |vals| && !Simple(vals[k])
  }

  lemma HasComplexAppend(a: seq<Node>, b: seq<Node>)
    ensures HasComplex(a + b) <==> HasComplex(a) || HasComplex(b)
  {
    if HasComplex(a) {
      var k :| 0 <= k < |a| && !Simple(a[k]);
      assert (a + b)[k] == a[k];
    }
    if HasComplex(b) {
      var k :| 0 <= k < |b| && !Simple(b[k]);
      assert (a + b)[|a| + k] == b[k];
    }
    if HasComplex(a + b) {
      var k :| 0 <= k < |a + b| && !Simple((a + b)[k]);
      if k >= |a| {
        assert b[k - |a|] == (a + b)[k];
      }
    }
  }

  lemma HasComplexOne(v: Node)
    ensures HasComplex([v]) <==> !Simple(v)
  {
    assert [v][0] == v;
  }

  /** Once the walk over the first children of n has raised, walking more children still raises. */
  lemma {:induction false} AssignmentsInFails(n: Node, i: nat, j: nat, name: Option<string>)
    requires WellFormed(n) && i <= j <= |n.kids|
    requires AssignmentsIn(n, i, name).Err?
    ensures AssignmentsIn(n, j, name).Err?
    decreases j - i
  {
    if i < j {
      AssignmentsInFails(n, i, j - 1, name);
    }
  }

  /**
   * `ConstantCheck(module)(name)`: exactly one counted assignment to `name`
   * in the whole module, and its value is a number, a string or a name. A
   * module without a tree raises AttributeError.
   */
  function IsConstantIn(mod: Registry.Module, name: string): (r: Result<bool>)
    requires mod.node.Some? ==> WellFormed(mod.node.value)
    ensures mod.node.None? ==> r == Err(AttributeError)
    ensures mod.node.Some? && Assignments(mod.node.value, Some(name)).Ok? ==>
      r == Ok(|Assignments(mod.node.value, Some(name)).value| == 1 && Simple(Assignments(mod.node.value, Some(name)).value[0]))
    ensures mod.node.Some? && Assignments(mod.node.value, Some(name)).Err? ==> r == Err(IndexError)
  {
    if mod.node.None? then Err(AttributeError)
    else
      match Assignments(mod.node.value, Some(name))
      case Err(e) => Err(e)
      case Ok(vals) => Ok(|vals| == 1 && Simple(vals[0]))
  }

  class ConstantCheck {
    const mod: Registry.Module
    const package: Option<Registry.Package>
    var count: nat
    var complex: bool
    var name: Option<string>

    constructor(mod: Registry.Module, package: Option<Registry.Package>)
      ensures this.mod == mod && this.package == package
      ensures count == 0 && !complex && name == None
    {
      this.mod := mod;
      this.package := package;
      count := 0;
      complex := false;
      name := None;
    }

    /**
     * `__call__`: resets the count, the flag and the name, then walks the
     * module, so the answer does not depend on earlier calls.
     */
    method Call(name: string) returns (r: Result<bool>)
      requires mod.node.Some? ==> WellFormed(mod.node.value)
      modifies this
      ensures this.name == Some(name)
      ensures r == IsConstantIn(mod, name)
    {
      count := 0;
      complex := false;
      this.name := Some(name);
      if mod.node.None? {
        return Err(AttributeError);
      }
      var v := Visit(mod.node.value);
      if v.Err? {
        return Err(v.error);
      }
      var vals := Assignments(mod.node.value, Some(name)).value;
      assert |vals| == 1 ==> (HasComplex(vals) <==> !Simple(vals[0]));
      r := Ok(count == 1 && !complex);
    }

    /** The generic walk: every counted assignment adds one, and a complex value sets the flag. */
    method Visit(n: Node) returns (r: Result<()>)
      requires WellFormed(n)
      modifies this
      ensures name == old(name)
      ensures r.Ok? <==> Assignments(n, name).Ok?
      ensures r.Err? ==> r.error == IndexError
      ensures r.Ok? ==> count == old(count) + |Assignments(n, name).value|
      ensures r.Ok? ==> complex == (old(complex) || HasComplex(Assignments(n, name).value))
      decreases n
    {
      if n.kind.Assign? || n.kind.AugAssign? {
        r := VisitAssign(n);
        if r.Ok? && Counted(n, name).value.Some? {
          HasComplexOne(Counted(n, name).value.value);
        }
        return;
      }
      ghost var count0, complex0 := count, complex;
      var i := 0;
      while i < |n.kids|
        invariant i <= |n.kids|
        invariant name == old(name)
        invariant AssignmentsIn(n, i, name).Ok?
        invariant count == count0 + |AssignmentsIn(n, i, name).value|
        invariant complex == (complex0 || HasComplex(AssignmentsIn(n, i, name).value))
      {
        ghost var front := AssignmentsIn(n, i, name).value;
        var sub := Visit(n.kids[i]);
        if sub.Err? {
          AssignmentsInFails(n, i + 1, |n.kids|, name);
          return Err(sub.error);
        }
        HasComplexAppend(front, Assignments(n.kids[i], name).value);
        i := i + 1;
      }
      r := Ok(());
    }

    /** `visit_Assign` / `visit_AugAssign`; the statement is not descended into. */
    method VisitAssign(s: Node) returns (r: Result<()>)
      requires (s.kind.Assign? || s.kind.AugAssign?) && Shaped(s)
      modifies this
      ensures name == old(name)
      ensures r.Ok? <==> Counted(s, name).Ok?
      ensures r.Err? ==> r.error == IndexError
      ensures r.Ok? ==> count == old(count) + (if Counted(s, name).value.Some? then 1 else 0)
      ensures r.Ok? ==> complex == (old(complex) || (Counted(s, name).value.Some? && !Simple(Counted(s, name).value.value)))
    {
      var value: Option<Node> := None;
      var target := s.kids[0];
      if StoresTo(target, name) {
        count := count + 1;
        value := Some(AssignValue(s));
      }
      if target.kind.Tuple? && AssignValue(s).kind.Tuple? {
        var idx := ScanTuple(target.kids, name);
        if idx.Some? {
          count := count + 1;
          if idx.value >= |AssignValue(s).kids| {
            return Err(IndexError);
          }
          value := Some(AssignValue(s).kids[idx.value]);
        }
      }
      if value.Some? && !Simple(value.value) {
        complex := true;
      }
      r := Ok(());
    }
  }

  // ----- where ConstantCheck counts, stated over the tree -----

  /**
   * The statement at q is one ConstantCheck counts: an Assign or AugAssign
   * with no other assignment statement above it.
   */
  predicate CheckSite(n: Node, q: Path)
    decreases |q|
  {
    if q == [] then n.kind.Assign? || n.kind.AugAssign?
    else !(n.kind.Assign? || n.kind.AugAssign?) && q[0] < |n.kids| && CheckSite(n.kids[q[0]], q[1..])
  }

  lemma {:induction false} CheckSiteAt(n: Node, q: Path)
    requires WellFormed(n) && CheckSite(n, q)
    ensures ValidPath(n, q) && (At(n, q).kind.Assign? || At(n, q).kind.AugAssign?) && WellFormed(At(n, q))
    decreases |q|
  {
    if q != [] {
      CheckSiteAt(n.kids[q[0]], q[1..]);
    }
  }

  /** What ConstantCheck counts for `name` at the statement q. */
  function SiteCount(n: Node, q: Path, name: Option<string>): Result<Option<Node>>
    requires WellFormed(n) && CheckSite(n, q)
  {
    CheckSiteAt(n, q);
    Counted(At(n, q), name)
  }

  /** The statements ConstantCheck counts under n, in visiting order. */
  function CheckSites(n: Node): seq<Path>
    decreases n, 1
  {
    if n.kind.Assign? || n.kind.AugAssign? then [[]] else CheckSitesIn(n, |n.kids|)
  }

  function CheckSitesIn(n: Node, i: nat): seq<Path>
    requires i <= |n.kids|
    decreases n, 0, i
  {
    if i == 0 then [] else CheckSitesIn(n, i - 1) + Under(i - 1, CheckSites(n.kids[i - 1]))
  }

  /** CheckSites lists every counted statement, and each once. */
  lemma {:induction false} CheckSitesExactly(n: Node, q: Path)
    ensures q in CheckSites(n) <==> CheckSite(n, q)
    ensures Distinct(CheckSites(n))
    decreases n, 1
  {
    if !(n.kind.Assign? || n.kind.AugAssign?) {
      CheckSitesInExactly(n, |n.kids|, q);
    }
  }

  lemma {:induction false} CheckSitesInExactly(n: Node, i: nat, q: Path)
    requires !(n.kind.Assign? || n.kind.AugAssign?) && i <= |n.kids|
    ensures q in CheckSitesIn(n, i) <==> q != [] && q[0] < i && CheckSite(n, q)
    ensures Distinct(CheckSitesIn(n, i)) && Below(CheckSitesIn(n, i), i)
    decreases n, 0, i
  {
    if i > 0 {
      var kid := CheckSites(n.kids[i - 1]);
      CheckSitesInExactly(n, i - 1, q);
      CheckSitesExactly(n.kids[i - 1], if q == [] then [] else q[1..]);
      UnderHas(i - 1, kid, q);
      DistinctUnder(CheckSitesIn(n, i - 1), i - 1, kid);
    }
  }

  predicate AllSites(n: Node, ps: seq<Path>) {
    forall k :: 0 <= k < |ps| ==> CheckSite(n, ps[k])
  }

  /** What ConstantCheck counts at the statements ps, in that order: the first raise, or the values. */
  function CountedAlong(n: Node, ps: seq<Path>, name: Option<string>): Result<seq<Node>>
    requires WellFormed(n) && AllSites(n, ps)
    decreases |ps|
  {
    if ps == [] then Ok([])
    else
      match CountedAlong(n, ps[..|ps| - 1], name)
      case Err(e) => Err(e)
      case Ok(front) =>
        match SiteCount(n, ps[|ps| - 1], name)
        case Err(e) => Err(e)
        case Ok(v) => Ok(front + if v.Some? then [v.value] else [])
  }

  /** The first raise of a, then of b, or both value lists in order. */
  function Joined(a: Result<seq<Node>>, b: Result<seq<Node>>): Result<seq<Node>> {
    match a
    case Err(e) => Err(e)
    case Ok(front) =>
      match b
      case Err(e) => Err(e)
      case Ok(more) => Ok(front + more)
  }

  lemma {:induction false} CountedAlongAppend(n: Node, a: seq<Path>, b: seq<Path>, name: Option<string>)
    requires WellFormed(n) && AllSites(n, a) && AllSites(n, b)
    ensures AllSites(n, a + b)
    ensures CountedAlong(n, a + b, name) == Joined(CountedAlong(n, a, name), CountedAlong(n, b, name))
    decreases |b|
  {
    if b == [] {
      assert a + b == a;
      assert CountedAlong(n, b, name) == Ok([]);
      if CountedAlong(n, a, name).Ok? {
        assert CountedAlong(n, a, name).value + [] == CountedAlong(n, a, name).value;
      }
    } else {
      var b' := b[..|b| - 1];
      assert (a + b)[..|a + b| - 1] == a + b';
      assert (a + b)[|a + b| - 1] == b[|b| - 1];
      CountedAlongAppend(n, a, b', name);
      var A, B := CountedAlong(n, a, name), CountedAlong(n, b', name);
      if A.Ok? && B.Ok? && SiteCount(n, b[|b| - 1], name).Ok? {
        var v := SiteCount(n, b[|b| - 1], name).value;
        var last := if v.Some? then [v.value] else [];
        assert (A.value + B.value) + last == A.value + (B.value + last);
      }
    }
  }

  lemma SiteCountUnder(n: Node, i: nat, p: Path, name: Option<string>)
    requires WellFormed(n) && i < |n.kids| && !(n.kind.Assign? || n.kind.AugAssign?) && CheckSite(n.kids[i], p)
    ensures CheckSite(n, [i] + p) && SiteCount(n, [i] + p, name) == SiteCount(n.kids[i], p, name)
  {
    assert ([i] + p)[1..] == p;
    CheckSiteAt(n.kids[i], p);
  }

  lemma {:induction false} CountedAlongUnder(n: Node, i: nat, ps: seq<Path>, name: Option<string>)
    requires WellFormed(n) && i < |n.kids| && !(n.kind.Assign? || n.kind.AugAssign?) && AllSites(n.kids[i], ps)
    ensures AllSites(n, Under(i, ps))
    ensures CountedAlong(n, Under(i, ps), name) == CountedAlong(n.kids[i], ps, name)
    decreases |ps|
  {
    forall k | 0 <= k < |ps|
      ensures CheckSite(n, Under(i, ps)[k])
    {
      SiteCountUnder(n, i, ps[k], name);
    }
    if ps != [] {
      var ps' := ps[..|ps| - 1];
      assert Under(i, ps)[..|ps| - 1] == Under(i, ps');
      CountedAlongUnder(n, i, ps', name);
      SiteCountUnder(n, i, ps[|ps| - 1], name);
    }
  }

  /** The walk of ConstantCheck counts exactly at CheckSites, in that order. */
  lemma {:induction false} AssignmentsAtSites(n: Node, name: Option<string>)
    requires WellFormed(n)
    ensures AllSites(n, CheckSites(n))
    ensures Assignments(n, name) == CountedAlong(n, CheckSites(n), name)
    decreases n, 1
  {
    if n.kind.Assign? || n.kind.AugAssign? {
      var ps: seq<Path> := [[]];
      assert CheckSites(n) == ps && ps[..0] == [];
      assert CountedAlong(n, ps[..0], name) == Ok([]);
      assert SiteCount(n, ps[0], name) == Counted(n, name);
      if Counted(n, name).Ok? {
        var v := Counted(n, name).value;
        var none: seq<Node> := [];
        assert none + (if v.Some? then [v.value] else []) == (if v.Some? then [v.value] else []);
      }
    } else {
      AssignmentsInAtSites(n, |n.kids|, name);
    }
  }

  lemma {:induction false} AssignmentsInAtSites(n: Node, i: nat, name: Option<string>)
    requires WellFormed(n) && !(n.kind.Assign? || n.kind.AugAssign?) && i <= |n.kids|
    ensures AllSites(n, CheckSitesIn(n, i))
    ensures AssignmentsIn(n, i, name) == CountedAlong(n, CheckSitesIn(n, i), name)
    decreases n, 0, i
  {
    if i > 0 {
      var kid := CheckSites(n.kids[i - 1]);
      var front := CheckSitesIn(n, i - 1);
      assert CheckSitesIn(n, i) == front + Under(i - 1, kid);
      AssignmentsInAtSites(n, i - 1, name);
      AssignmentsAtSites(n.kids[i - 1], name);
      CountedAlongUnder(n, i - 1, kid, name);
      CountedAlongAppend(n, front, Under(i - 1, kid), name);
      calc {
        AssignmentsIn(n, i, name);
        { AssignmentsInJoined(n, i, name); }
        Joined(AssignmentsIn(n, i - 1, name), Assignments(n.kids[i - 1], name));
        Joined(CountedAlong(n, front, name), CountedAlong(n.kids[i - 1], kid, name));
        Joined(CountedAlong(n, front, name), CountedAlong(n, Under(i - 1, kid), name));
        CountedAlong(n, front + Under(i - 1, kid), name);
      }
    }
  }

  /** The walk over the first i children joins the walk over the first i - 1 with the i-th child's. */
  lemma AssignmentsInJoined(n: Node, i: nat, name: Option<string>)
    requires WellFormed(n) && 0 < i <= |n.kids|
    ensures AssignmentsIn(n, i, name) == Joined(AssignmentsIn(n, i - 1, name), Assignments(n.kids[i - 1], name))
  {
  }

  /** ConstantCheck counts a value at the statement at q. */
  predicate Hit(n: Node, q: Path, name: Option<string>)
    requires WellFormed(n) && CheckSite(n, q)
  {
    SiteCount(n, q, name).Ok? && SiteCount(n, q, name).value.Some?
  }

  /** The indices among ps where ConstantCheck counts a value. */
  ghost function Hits(n: Node, ps: seq<Path>, name: Option<string>): set<nat>
    requires WellFormed(n) && AllSites(n, ps)
  {
    set k: nat | k < |ps| && Hit(n, ps[k], name)
  }

  /** Counting along ps raises exactly when one of the statements raises. */
  lemma {:induction false} CountedAlongOk(n: Node, ps: seq<Path>, name: Option<string>)
    requires WellFormed(n) && AllSites(n, ps)
    ensures CountedAlong(n, ps, name).Ok? <==> forall k :: 0 <= k < |ps| ==> SiteCount(n, ps[k], name).Ok?
    decreases |ps|
  {
    if ps != [] {
      var front := ps[..|ps| - 1];
      CountedAlongOk(n, front, name);
      assert forall k :: 0 <= k < |front| ==> front[k] == ps[k];
    }
  }

  /** Otherwise it holds one value per statement that counts one ... */
  lemma {:induction false} CountedAlongHits(n: Node, ps: seq<Path>, name: Option<string>)
    requires WellFormed(n) && AllSites(n, ps) && CountedAlong(n, ps, name).Ok?
    ensures |CountedAlong(n, ps, name).value| == |Hits(n, ps, name)|
    decreases |ps|
  {
    if ps != [] {
      var front := ps[..|ps| - 1];
      CountedAlongHits(n, front, name);
      HitsStep(n, ps, name);
    }
  }

  /** ... each the value counted there. */
  lemma {:induction false} CountedAlongValues(n: Node, ps: seq<Path>, name: Option<string>)
    requires WellFormed(n) && AllSites(n, ps) && CountedAlong(n, ps, name).Ok?
    ensures forall v :: v in CountedAlong(n, ps, name).value ==>
      exists k :: k in Hits(n, ps, name) && SiteCount(n, ps[k], name).value.value == v
    decreases |ps|
  {
    if ps != [] {
      var front := ps[..|ps| - 1];
      var last := |ps| - 1;
      CountedAlongValues(n, front, name);
      HitsStep(n, ps, name);
      var vals := CountedAlong(n, ps, name).value;
      var before := CountedAlong(n, front, name).value;
      var c := SiteCount(n, ps[last], name).value;
      assert vals == before + if c.Some? then [c.value] else [];
      forall v | v in vals
        ensures exists k :: k in Hits(n, ps, name) && SiteCount(n, ps[k], name).value.value == v
      {
        if v in before {
          var k :| k in Hits(n, front, name) && SiteCount(n, front[k], name).value.value == v;
          assert front[k] == ps[k];
          assert k in Hits(n, ps, name);
        } else {
          assert last in Hits(n, ps, name);
        }
      }
    }
  }

  lemma HitsStep(n: Node, ps: seq<Path>, name: Option<string>)
    requires WellFormed(n) && AllSites(n, ps) && ps != []
    ensures AllSites(n, ps[..|ps| - 1])
    ensures Hits(n, ps, name) == Hits(n, ps[..|ps| - 1], name) + (if Hit(n, ps[|ps| - 1], name) then {|ps| - 1} else {})
    ensures |ps| - 1 !in Hits(n, ps[..|ps| - 1], name)
  {
    AllSitesFront(n, ps);
    var front := ps[..|ps| - 1];
    var last := |ps| - 1;
    var extra: set<nat> := if Hit(n, ps[last], name) then {last} else {};
    HitsFrontSame(n, ps, name);
    assert Hits(n, ps, name) == Hits(n, front, name) + extra by {
      forall k | k in Hits(n, ps, name)
        ensures k in Hits(n, front, name) + extra
      {
      }
    }
  }

  lemma HitsFrontSame(n: Node, ps: seq<Path>, name: Option<string>)
    requires WellFormed(n) && AllSites(n, ps) && ps != []
    ensures AllSites(n, ps[..|ps| - 1])
    ensures forall k :: 0 <= k < |ps| - 1 ==> (k in Hits(n, ps[..|ps| - 1], name) <==> k in Hits(n, ps, name))
  {
    AllSitesFront(n, ps);
    var front := ps[..|ps| - 1];
    forall k | 0 <= k < |front|
      ensures k in Hits(n, front, name) <==> k in Hits(n, ps, name)
    {
      assert front[k] == ps[k];
    }
  }

  lemma AllSitesFront(n: Node, ps: seq<Path>)
    requires AllSites(n, ps) && ps != []
    ensures AllSites(n, ps[..|ps| - 1])
  {
    var front := ps[..|ps| - 1];
    forall k | 0 <= k < |front|
      ensures CheckSite(n, front[k])
    {
      assert front[k] == ps[k];
    }
  }

  lemma OnlyMember(s: set<nat>, k: nat, j: nat)
    requires |s| == 1 && k in s && j in s
    ensures j == k
  {
    var rest := s - {k};
    assert |rest| == 0;
    assert j in rest || j == k;
  }

  /** The statement at q is the only one that counts a value for `name`, and that value is simple. */
  ghost predicate SoleSimpleValue(n: Node, q: Path, name: Option<string>)
    requires WellFormed(n)
  {
    && CheckSite(n, q)
    && SiteCount(n, q, name).Ok? && SiteCount(n, q, name).value.Some? && Simple(SiteCount(n, q, name).value.value)
    && forall p :: CheckSite(n, p) && p != q ==> SiteCount(n, p, name) == Ok(None)
  }

  /** `ConstantCheck(module)(name)` raises exactly when one of the statements it counts raises. */
  lemma ConstantRaises(mod: Registry.Module, name: string)
    requires HasTree(mod)
    ensures IsConstantIn(mod, name).Err? <==>
      exists q :: CheckSite(mod.node.value, q) && SiteCount(mod.node.value, q, Some(name)).Err?
  {
    var root := mod.node.value;
    var ps := CheckSites(root);
    AssignmentsAtSites(root, Some(name));
    CountedAlongOk(root, ps, Some(name));
    if exists q :: CheckSite(root, q) && SiteCount(root, q, Some(name)).Err? {
      var q :| CheckSite(root, q) && SiteCount(root, q, Some(name)).Err?;
      CheckSitesExactly(root, q);
      var k :| 0 <= k < |ps| && ps[k] == q;
    }
    if CountedAlong(root, ps, Some(name)).Err? {
      var k :| 0 <= k < |ps| && SiteCount(root, ps[k], Some(name)).Err?;
      assert CheckSite(root, ps[k]);
    }
  }

  /**
   * `ConstantCheck(module)(name)` is true exactly when one statement it
   * counts assigns the name a number, a string or a name, and every other
   * statement it counts assigns the name nothing.
   */
  lemma ConstantExactly(mod: Registry.Module, name: string)
    requires HasTree(mod)
    ensures IsConstantIn(mod, name) == Ok(true) <==> exists q :: SoleSimpleValue(mod.node.value, q, Some(name))
  {
    var root := mod.node.value;
    if IsConstantIn(mod, name) == Ok(true) {
      var q := ConstantSite(root, name);
    }
    if exists q :: SoleSimpleValue(root, q, Some(name)) {
      var q :| SoleSimpleValue(root, q, Some(name));
      SoleSimpleIsConstant(root, q, name);
    }
  }

  lemma ConstantSite(root: Node, name: string) returns (q: Path)
    requires WellFormed(root)
    requires Assignments(root, Some(name)).Ok?
    requires |Assignments(root, Some(name)).value| == 1 && Simple(Assignments(root, Some(name)).value[0])
    ensures SoleSimpleValue(root, q, Some(name))
  {
    var ps := CheckSites(root);
    var vals := Assignments(root, Some(name)).value;
    AssignmentsAtSites(root, Some(name));
    CountedAlongOk(root, ps, Some(name));
    CountedAlongHits(root, ps, Some(name));
    CountedAlongValues(root, ps, Some(name));
    assert vals[0] in vals;
    var k :| k in Hits(root, ps, Some(name)) && SiteCount(root, ps[k], Some(name)).value.value == vals[0];
    q := ps[k];
    OthersCountNothing(root, k, Some(name));
  }

  /** When only the statement at index k counts a value, every other statement counts nothing. */
  lemma OthersCountNothing(root: Node, k: nat, name: Option<string>)
    requires WellFormed(root) && AllSites(root, CheckSites(root))
    requires forall j :: 0 <= j < |CheckSites(root)| ==> SiteCount(root, CheckSites(root)[j], name).Ok?
    requires |Hits(root, CheckSites(root), name)| == 1 && k in Hits(root, CheckSites(root), name)
    ensures forall p :: CheckSite(root, p) && p != CheckSites(root)[k] ==> SiteCount(root, p, name) == Ok(None)
  {
    var ps := CheckSites(root);
    forall p | CheckSite(root, p) && p != ps[k]
      ensures SiteCount(root, p, name) == Ok(None)
    {
      CheckSitesExactly(root, p);
      var j :| 0 <= j < |ps| && ps[j] == p;
      if j in Hits(root, ps, name) {
        OnlyMember(Hits(root, ps, name), k, j);
      }
    }
  }

  lemma SoleSimpleIsConstant(root: Node, q: Path, name: string)
    requires WellFormed(root) && SoleSimpleValue(root, q, Some(name))
    ensures Assignments(root, Some(name)).Ok?
    ensures |Assignments(root, Some(name)).value| == 1 && Simple(Assignments(root, Some(name)).value[0])
  {
    var ps := CheckSites(root);
    AssignmentsAtSites(root, Some(name));
    CheckSitesExactly(root, q);
    var k :| 0 <= k < |ps| && ps[k] == q;
    CountedAlongOk(root, ps, Some(name));
    var hits := Hits(root, ps, Some(name));
    forall j | j in hits
      ensures j == k
    {
      assert CheckSite(root, ps[j]);
    }
    assert hits == {k};
    CountedAlongHits(root, ps, Some(name));
    CountedAlongValues(root, ps, Some(name));
    var vals := Assignments(root, Some(name)).value;
    assert vals[0] in vals;
  }

  // ----- ConstantFinder -----

  /**
   * A finder result: the assignment to inline, the module and package it came
   * from, and the assignment's position in the module's tree when it is a node
   * of that tree. The single-target assignments made up for tuple elements
   * are not in the tree and have no position.
   */
  datatype FinderResult = FinderResult(node: Node, mod: Registry.Module, package: Option<Registry.Package>, at: Option<Path>)

  predicate HasTree(mod: Registry.Module) {
    mod.node.Some? && WellFormed(mod.node.value)
  }

  /**
   * What the tuple branch of ConstantFinder's `visit_Assign` adds for the
   * first i elements of the target: for each Name element that is a
   * constant, a new assignment of the value's element at the same index,
   * located at the statement.
   */
  function TupleFound(mod: Registry.Module, package: Option<Registry.Package>, s: Node, i: nat): (r: Result<seq<FinderResult>>)
    requires HasTree(mod) && s.kind.Assign? && Shaped(s) && i <= |s.kids[0].kids|
    decreases i
  {
    if i == 0 then Ok([])
    else
      match TupleFound(mod, package, s, i - 1)
      case Err(e) => Err(e)
      case Ok(front) =>
        var elt := s.kids[0].kids[i - 1];
        if !elt.kind.Name? then Ok(front)
        else
          match IsConstantIn(mod, elt.kind.id)
          case Err(e) => Err(e)
          case Ok(constant) =>
            if !constant then Ok(front)
            else
              match EltsOf(AssignValue(s))
              case Err(e) => Err(e)
              case Ok(vs) =>
                if i - 1 < |vs| then
                  Ok(front + [FinderResult(CopyLoc(Node(Assign, [elt, vs[i - 1]], None), s), mod, package, None)])
                else Err(IndexError)
  }

  /** What ConstantFinder's `visit_Assign` adds for the assignment s at position `at`. */
  function FoundAt(mod: Registry.Module, package: Option<Registry.Package>, s: Node, at: Path): (r: Result<seq<FinderResult>>)
    requires HasTree(mod) && s.kind.Assign? && Shaped(s)
  {
    var target := s.kids[0];
    if target.kind.Name? && target.kind.ctx == Store then
      match IsConstantIn(mod, target.kind.id)
      case Err(e) => Err(e)
      case Ok(constant) => Ok(if constant then [FinderResult(s, mod, package, Some(at))] else [])
    else if target.kind.Tuple? && target.kind.ctx == Store then
      TupleFound(mod, package, s, |target.kids|)
    else Ok([])
  }

  /** Everything ConstantFinder adds while visiting n at position `at`; assignments are not descended into. */
  function Found(mod: Registry.Module, package: Option<Registry.Package>, n: Node, at: Path): (r: Result<seq<FinderResult>>)
    requires HasTree(mod) && WellFormed(n)
    decreases n, 1
  {
    if n.kind.Assign? then FoundAt(mod, package, n, at)
    else FoundIn(mod, package, n, at, |n.kids|)
  }

  function FoundIn(mod: Registry.Module, package: Option<Registry.Package>, n: Node, at: Path, i: nat): (r: Result<seq<FinderResult>>)
    requires HasTree(mod) && WellFormed(n) && i <= |n.kids|
    decreases n, 0, i
  {
    if i == 0 then Ok([])
    else
      match FoundIn(mod, package, n, at, i - 1)
      case Err(e) => Err(e)
      case Ok(front) =>
        match Found(mod, package, n.kids[i - 1], at + [i - 1])
        case Err(e) => Err(e)
        case Ok(more) => Ok(front + more)
  }

  /** `ConstantFinder(module, package)()`: the results for the module's whole tree. */
  function FindConstants(mod: Registry.Module, package: Option<Registry.Package>): (r: Result<seq<FinderResult>>)
    requires mod.node.Some? ==> WellFormed(mod.node.value)
    ensures mod.node.None? ==> r == Err(AttributeError)
  {
    if mod.node.None? then Err(AttributeError) else Found(mod, package, mod.node.value, [])
  }

  /**
   * A result worth inlining: a single-name assignment whose name is a
   * constant of the module, and which, when it has a position, is the node
   * at that position.
   */
  predicate Eligible(mod: Registry.Module, package: Option<Registry.Package>, f: FinderResult)
    requires HasTree(mod)
  {
    && f.mod == mod && f.package == package
    && f.node.kind.Assign? && WellFormed(f.node)
    && f.node.kids[0].kind.Name?
    && IsConstantIn(mod, f.node.kids[0].kind.id) == Ok(true)
    && (f.at.Some? ==> ValidPath(mod.node.value, f.at.value) && At(mod.node.value, f.at.value) == f.node)
    && (f.at.None? ==> |f.node.kids| == 2)
  }

  predicate AllEligible(mod: Registry.Module, package: Option<Registry.Package>, rs: seq<FinderResult>)
    requires HasTree(mod)
  {
    forall k :: 0 <= k < |rs| ==> Eligible(mod, package, rs[k])
  }

  lemma AllEligibleAppend(mod: Registry.Module, package: Option<Registry.Package>, a: seq<FinderResult>, b: seq<FinderResult>)
    requires HasTree(mod) && AllEligible(mod, package, a) && AllEligible(mod, package, b)
    ensures AllEligible(mod, package, a + b)
  {
    forall k | 0 <= k < |a + b|
      ensures Eligible(mod, package, (a + b)[k])
    {
      if k >= |a| {
        assert (a + b)[k] == b[k - |a|];
      }
    }
  }

  lemma {:induction false} TupleFoundEligible(mod: Registry.Module, package: Option<Registry.Package>, s: Node, i: nat)
    requires HasTree(mod) && s.kind.Assign? && WellFormed(s) && i <= |s.kids[0].kids|
    ensures TupleFound(mod, package, s, i).Ok? ==> AllEligible(mod, package, TupleFound(mod, package, s, i).value)
    decreases i
  {
    if i > 0 {
      TupleFoundEligible(mod, package, s, i - 1);
    }
  }

  /** Every result ConstantFinder reports under the node at `at` is eligible for inlining. */
  lemma {:induction false} FoundEligible(mod: Registry.Module, package: Option<Registry.Package>, n: Node, at: Path)
    requires HasTree(mod) && ValidPath(mod.node.value, at) && n == At(mod.node.value, at)
    ensures WellFormed(n)
    ensures Found(mod, package, n, at).Ok? ==> AllEligible(mod, package, Found(mod, package, n, at).value)
    decreases n, 1
  {
    WellFormedAt(mod.node.value, at);
    if n.kind.Assign? {
      TupleFoundEligible(mod, package, n, |n.kids[0].kids|);
    } else {
      FoundInEligible(mod, package, n, at, |n.kids|);
    }
  }

  lemma {:induction false} FoundInEligible(mod: Registry.Module, package: Option<Registry.Package>, n: Node, at: Path, i: nat)
    requires HasTree(mod) && ValidPath(mod.node.value, at) && n == At(mod.node.value, at) && WellFormed(n) && i <= |n.kids|
    ensures FoundIn(mod, package, n, at, i).Ok? ==> AllEligible(mod, package, FoundIn(mod, package, n, at, i).value)
    decreases n, 0, i
  {
    if i > 0 {
      FoundInEligible(mod, package, n, at, i - 1);
      AtSnoc(mod.node.value, at, i - 1);
      FoundEligible(mod, package, n.kids[i - 1], at + [i - 1]);
      var r := FoundIn(mod, package, n, at, i);
      if r.Ok? {
        AllEligibleAppend(mod, package, FoundIn(mod, package, n, at, i - 1).value, Found(mod, package, n.kids[i - 1], at + [i - 1]).value);
      }
    }
  }

  lemma {:induction false} TupleFoundFails(mod: Registry.Module, package: Option<Registry.Package>, s: Node, i: nat, j: nat)
    requires HasTree(mod) && s.kind.Assign? && Shaped(s) && i <= j <= |s.kids[0].kids|
    requires TupleFound(mod, package, s, i).Err?
    ensures TupleFound(mod, package, s, j) == TupleFound(mod, package, s, i)
    decreases j - i
  {
    if i < j {
      TupleFoundFails(mod, package, s, i, j - 1);
    }
  }

  lemma {:induction false} FoundInFails(mod: Registry.Module, package: Option<Registry.Package>, n: Node, at: Path, i: nat, j: nat)
    requires HasTree(mod) && WellFormed(n) && i <= j <= |n.kids|
    requires FoundIn(mod, package, n, at, i).Err?
    ensures FoundIn(mod, package, n, at, j) == FoundIn(mod, package, n, at, i)
    decreases j - i
  {
    if i < j {
      FoundInFails(mod, package, n, at, i, j - 1);
    }
  }

  /** Whatever the visit of the assignment at q adds is among what the visit of n adds. */
  lemma {:induction false} FoundHas(mod: Registry.Module, package: Option<Registry.Package>, n: Node, at: Path, q: Path)
    requires HasTree(mod) && WellFormed(n) && OutermostAssign(n, q)
    requires Found(mod, package, n, at).Ok?
    ensures ValidPath(n, q) && At(n, q).kind.Assign? && WellFormed(At(n, q))
    ensures FoundAt(mod, package, At(n, q), at + q).Ok?
    ensures forall f :: f in FoundAt(mod, package, At(n, q), at + q).value ==> f in Found(mod, package, n, at).value
    decreases n, 1
  {
    OutermostAssignAt(n, q);
    if n.kind.Assign? {
      assert at + q == at;
    } else {
      FoundInHas(mod, package, n, at, |n.kids|, q);
    }
  }

  lemma {:induction false} FoundInHas(mod: Registry.Module, package: Option<Registry.Package>, n: Node, at: Path, i: nat, q: Path)
    requires HasTree(mod) && WellFormed(n) && !n.kind.Assign? && i <= |n.kids| && OutermostAssign(n, q) && q[0] < i
    requires FoundIn(mod, package, n, at, i).Ok?
    ensures ValidPath(n, q) && At(n, q).kind.Assign? && WellFormed(At(n, q))
    ensures FoundAt(mod, package, At(n, q), at + q).Ok?
    ensures forall f :: f in FoundAt(mod, package, At(n, q), at + q).value ==> f in FoundIn(mod, package, n, at, i).value
    decreases n, 0, i
  {
    OutermostAssignAt(n, q);
    if q[0] == i - 1 {
      FoundHas(mod, package, n.kids[i - 1], at + [i - 1], q[1..]);
      assert (at + [i - 1]) + q[1..] == at + q;
    } else {
      FoundInHas(mod, package, n, at, i - 1, q);
    }
  }

  /** The tuple branch adds a copy for every element that names a constant. */
  lemma {:induction false} TupleFoundHas(mod: Registry.Module, package: Option<Registry.Package>, s: Node, i: nat, k: nat)
    requires HasTree(mod) && s.kind.Assign? && Shaped(s) && k < i <= |s.kids[0].kids|
    requires TupleFound(mod, package, s, i).Ok?
    requires s.kids[0].kids[k].kind.Name? && IsConstantIn(mod, s.kids[0].kids[k].kind.id) == Ok(true)
    ensures EltsOf(AssignValue(s)).Ok? && k < |EltsOf(AssignValue(s)).value|
    ensures FinderResult(CopyLoc(Node(Assign, [s.kids[0].kids[k], EltsOf(AssignValue(s)).value[k]], None), s), mod, package, None)
              in TupleFound(mod, package, s, i).value
    decreases i
  {
    if k < i - 1 {
      TupleFoundHas(mod, package, s, i - 1, k);
    }
  }

  /**
   * ConstantFinder reports every assignment outside other assignments whose
   * first target is a Name holding a constant, at the assignment's own
   * position.
   */
  lemma ReportsConstant(mod: Registry.Module, package: Option<Registry.Package>, q: Path)
    requires HasTree(mod) && OutermostAssign(mod.node.value, q)
    requires FindConstants(mod, package).Ok?
    ensures ValidPath(mod.node.value, q) && At(mod.node.value, q).kind.Assign? && Shaped(At(mod.node.value, q))
    ensures var target := At(mod.node.value, q).kids[0];
      target.kind.Name? && target.kind.ctx == Store && IsConstantIn(mod, target.kind.id) == Ok(true) ==>
        FinderResult(At(mod.node.value, q), mod, package, Some(q)) in FindConstants(mod, package).value
  {
    FoundHas(mod, package, mod.node.value, [], q);
    assert [] + q == q;
  }

  /**
   * ... and, for an assignment to a tuple of names, a single assignment for
   * every element naming a constant, of the value's element at its index.
   */
  lemma ReportsConstantElement(mod: Registry.Module, package: Option<Registry.Package>, q: Path, k: nat)
    requires HasTree(mod) && OutermostAssign(mod.node.value, q)
    requires FindConstants(mod, package).Ok?
    ensures ValidPath(mod.node.value, q) && At(mod.node.value, q).kind.Assign? && Shaped(At(mod.node.value, q))
    ensures var s := At(mod.node.value, q);
      s.kids[0].kind.Tuple? && s.kids[0].kind.ctx == Store && k < |s.kids[0].kids| &&
      s.kids[0].kids[k].kind.Name? && IsConstantIn(mod, s.kids[0].kids[k].kind.id) == Ok(true) ==>
        EltsOf(AssignValue(s)).Ok? && k < |EltsOf(AssignValue(s)).value| &&
        FinderResult(CopyLoc(Node(Assign, [s.kids[0].kids[k], EltsOf(AssignValue(s)).value[k]], None), s), mod, package, None)
          in FindConstants(mod, package).value
  {
    FoundHas(mod, package, mod.node.value, [], q);
    assert [] + q == q;
    var s := At(mod.node.value, q);
    if s.kids[0].kind.Tuple? && s.kids[0].kind.ctx == Store && k < |s.kids[0].kids| &&
       s.kids[0].kids[k].kind.Name? && IsConstantIn(mod, s.kids[0].kids[k].kind.id) == Ok(true) {
      TupleFoundHas(mod, package, s, |s.kids[0].kids|, k);
    }
  }

  class ConstantFinder {
    const mod: Registry.Module
    const package: Option<Registry.Package>
    var found: seq<FinderResult>

    constructor(mod: Registry.Module, package: Option<Registry.Package>)
      ensures this.mod == mod && this.package == package && found == []
    {
      this.mod := mod;
      this.package := package;
      found := [];
    }

    /** `__call__`: resets the results, walks the module and hands back a copy of the results. */
    method Call() returns (r: Result<seq<FinderResult>>)
      requires mod.node.Some? ==> WellFormed(mod.node.value)
      modifies this
      ensures r == FindConstants(mod, package)
    {
      found := [];
      if mod.node.None? {
        return Err(AttributeError);
      }
      var v := Visit(mod.node.value, []);
      if v.Err? {
        return Err(v.error);
      }
      assert found == [] + Found(mod, package, mod.node.value, []).value;
      assert Found(mod, package, mod.node.value, []).Ok?;
      assert found == Found(mod, package, mod.node.value, []).value;
      r := Ok(found);
    }

    /** The generic walk, reporting under n (at position `at`) what Found describes. */
    method Visit(n: Node, at: Path) returns (r: Result<()>)
      requires HasTree(mod) && WellFormed(n)
      modifies this
      ensures r.Ok? <==> Found(mod, package, n, at).Ok?
      ensures r.Err? ==> r == Err(Found(mod, package, n, at).error)
      ensures r.Ok? ==> found == old(found) + Found(mod, package, n, at).value
      decreases n
    {
      if n.kind.Assign? {
        r := VisitAssign(n, at);
        return;
      }
      var i := 0;
      while i < |n.kids|
        invariant i <= |n.kids|
        invariant FoundIn(mod, package, n, at, i).Ok?
        invariant found == old(found) + FoundIn(mod, package, n, at, i).value
      {
        var sub := Visit(n.kids[i], at + [i]);
        if sub.Err? {
          FoundInFails(mod, package, n, at, i + 1, |n.kids|);
          return Err(sub.error);
        }
        i := i + 1;
      }
      r := Ok(());
    }

    /** `visit_Assign`: a fresh ConstantCheck decides each candidate name. */
    method VisitAssign(s: Node, at: Path) returns (r: Result<()>)
      requires HasTree(mod) && s.kind.Assign? && Shaped(s)
      modifies this
      ensures r.Ok? <==> FoundAt(mod, package, s, at).Ok?
      ensures r.Err? ==> r == Err(FoundAt(mod, package, s, at).error)
      ensures r.Ok? ==> found == old(found) + FoundAt(mod, package, s, at).value
    {
      var target := s.kids[0];
      if target.kind.Name? && target.kind.ctx == Store {
        var check := new ConstantCheck(mod, package);
        var constant := check.Call(target.kind.id);
        if constant.Err? {
          return Err(constant.error);
        }
        if constant.value {
          found := found + [FinderResult(s, mod, package, Some(at))];
        }
      }
      if target.kind.Tuple? && target.kind.ctx == Store {
        r := VisitTuple(s);
        return;
      }
      r := Ok(());
    }

    /** The element loop of the tuple branch. */
    method VisitTuple(s: Node) returns (r: Result<()>)
      requires HasTree(mod) && s.kind.Assign? && Shaped(s)
      modifies this
      ensures r.Ok? <==> TupleFound(mod, package, s, |s.kids[0].kids|).Ok?
      ensures r.Err? ==> r == Err(TupleFound(mod, package, s, |s.kids[0].kids|).error)
      ensures r.Ok? ==> found == old(found) + TupleFound(mod, package, s, |s.kids[0].kids|).value
    {
      var elts := s.kids[0].kids;
      var idx := 0;
      while idx < |elts|
        invariant idx <= |elts|
        invariant TupleFound(mod, package, s, idx).Ok?
        invariant found == old(found) + TupleFound(mod, package, s, idx).value
      {
        if elts[idx].kind.Name? {
          var check := new ConstantCheck(mod, package);
          var constant := check.Call(elts[idx].kind.id);
          if constant.Err? {
            TupleFoundFails(mod, package, s, idx + 1, |elts|);
            return Err(constant.error);
          }
          if constant.value {
            var values := EltsOf(AssignValue(s));
            if values.Err? {
              TupleFoundFails(mod, package, s, idx + 1, |elts|);
              return Err(values.error);
            }
            if idx >= |values.value| {
              TupleFoundFails(mod, package, s, idx + 1, |elts|);
              return Err(IndexError);
            }
            var dupe := CopyLoc(Node(Assign, [elts[idx], values.value[idx]], None), s);
            found := found + [FinderResult(dupe, mod, package, None)];
          }
        }
        idx := idx + 1;
      }
      r := Ok(());
    }
  }

  // ----- ConstantInliner -----

  /** The loads the inliner for assignment c replaces: Load Names whose id is one of c's target names. */
  predicate Inlined(n: Node, c: Node)
    requires c.kind.Assign? && Shaped(c)
  {
    IsLoadName(n) && NameAmong(n.kind.id, Targets(c))
  }

  /**
   * The ConstantInliner pass for assignment c, with the target test
   * corrected to look only at Name targets: each replaced load becomes c's
   * value located at c, and the replacement is not visited further.
   */
  function Inline(n: Node, c: Node): (r: Node)
    requires c.kind.Assign? && Shaped(c)
    ensures Inlined(n, c) ==> r == CopyLoc(AssignValue(c), c)
    ensures !Inlined(n, c) ==> r.kind == n.kind && r.loc == n.loc && |r.kids| == |n.kids|
  {
    if Inlined(n, c) then CopyLoc(AssignValue(c), c)
    else n.(kids := seq(|n.kids|, k requires 0 <= k < |n.kids| => Inline(n.kids[k], c)))
  }

  /** The ConstantInliner pass as written, whose target test is the lazy generator of IdIn. */
  function InlineAsWritten(n: Node, c: Node): (r: Result<Node>)
    requires c.kind.Assign? && Shaped(c)
    decreases n, 2
  {
    if IsLoadName(n) then
      match IdIn(n.kind.id, Targets(c))
      case Err(e) => Err(e)
      case Ok(hit) => if hit then Ok(CopyLoc(AssignValue(c), c)) else RebuildAsWritten(n, c)
    else RebuildAsWritten(n, c)
  }

  /** `generic_visit`: n with each child replaced by its visit. */
  function RebuildAsWritten(n: Node, c: Node): (r: Result<Node>)
    requires c.kind.Assign? && Shaped(c)
    decreases n, 1
  {
    match InlineKidsAsWritten(n, |n.kids|, c)
    case Err(e) => Err(e)
    case Ok(kids) => Ok(n.(kids := kids))
  }

  function InlineKidsAsWritten(n: Node, i: nat, c: Node): (r: Result<seq<Node>>)
    requires c.kind.Assign? && Shaped(c) && i <= |n.kids|
    decreases n, 0, i
  {
    if i == 0 then Ok([])
    else
      match InlineKidsAsWritten(n, i - 1, c)
      case Err(e) => Err(e)
      case Ok(front) =>
        match InlineAsWritten(n.kids[i - 1], c)
        case Err(e) => Err(e)
        case Ok(kid) => Ok(front + [kid])
  }

  /**
   * Where the as-written pass succeeds it agrees with the corrected one, and
   * it succeeds whenever every target of c is a Name.
   */
  lemma {:induction false} AsWrittenAgrees(n: Node, c: Node)
    requires c.kind.Assign? && Shaped(c)
    ensures InlineAsWritten(n, c).Ok? ==> InlineAsWritten(n, c).value == Inline(n, c)
    ensures AllNames(Targets(c)) ==> InlineAsWritten(n, c).Ok?
    decreases n, 1
  {
    AsWrittenKidsAgree(n, |n.kids|, c);
    var kids := seq(|n.kids|, k requires 0 <= k < |n.kids| => Inline(n.kids[k], c));
    assert kids[..|n.kids|] == kids;
  }

  lemma {:induction false} AsWrittenKidsAgree(n: Node, i: nat, c: Node)
    requires c.kind.Assign? && Shaped(c) && i <= |n.kids|
    ensures InlineKidsAsWritten(n, i, c).Ok? ==>
      InlineKidsAsWritten(n, i, c).value == seq(|n.kids|, k requires 0 <= k < |n.kids| => Inline(n.kids[k], c))[..i]
    ensures AllNames(Targets(c)) ==> InlineKidsAsWritten(n, i, c).Ok?
    decreases n, 0, i
  {
    if i > 0 {
      AsWrittenKidsAgree(n, i - 1, c);
      AsWrittenAgrees(n.kids[i - 1], c);
      var kids := seq(|n.kids|, k requires 0 <= k < |n.kids| => Inline(n.kids[k], c));
      assert kids[..i] == kids[..i - 1] + [kids[i - 1]];
    }
  }

  /** The tree holds a load the pass for c replaces. */
  predicate Uses(n: Node, c: Node)
    requires c.kind.Assign? && Shaped(c)
  {
    Inlined(n, c) || exists k :: 0 <= k < |n.kids| && Uses(n.kids[k], c)
  }

  /** A tree with no load of c's names comes back unchanged. */
  lemma {:induction false} InlineUnused(n: Node, c: Node)
    requires c.kind.Assign? && Shaped(c) && !Uses(n, c)
    ensures Inline(n, c) == n
  {
    forall k | 0 <= k < |n.kids|
      ensures Inline(n.kids[k], c) == n.kids[k]
    {
      InlineUnused(n.kids[k], c);
    }
    assert Inline(n, c).kids == n.kids;
  }

  /**
   * The pass rewrites a well-formed tree position by position: every
   * position is still there and holds the rewrite of the node that was there.
   */
  lemma {:induction false} InlineAt(n: Node, c: Node, p: Path)
    requires c.kind.Assign? && Shaped(c) && WellFormed(n) && ValidPath(n, p)
    ensures ValidPath(Inline(n, c), p) && At(Inline(n, c), p) == Inline(At(n, p), c)
    decreases |p|
  {
    if p != [] {
      InlineAt(n.kids[p[0]], c, p[1..]);
    }
  }

  // ----- optimize -----

  /**
   * The assignment a finder result stands for when its turn comes: an
   * assignment of the tree is read at its position in the current tree, since
   * earlier passes rewrite its value in place; a made-up assignment is used as
   * it was built.
   */
  function Current(tree: Node, f: FinderResult): (r: Node)
    requires f.node.kind.Assign? && Shaped(f.node)
    ensures r.kind.Assign? && Shaped(r)
    ensures f.at.None? ==> r == f.node
  {
    if f.at.Some? && ValidPath(tree, f.at.value) && At(tree, f.at.value).kind.Assign? && Shaped(At(tree, f.at.value))
    then At(tree, f.at.value)
    else f.node
  }

  predicate Inlinable(found: seq<FinderResult>) {
    forall k :: 0 <= k < |found| ==> found[k].node.kind.Assign? && Shaped(found[k].node)
  }

  /** One inliner pass per finder result, in the finder's order. */
  function InlineEach(tree: Node, found: seq<FinderResult>): Node
    requires Inlinable(found)
    decreases |found|
  {
    if found == [] then tree
    else
      var before := InlineEach(tree, found[..|found| - 1]);
      Inline(before, Current(before, found[|found| - 1]))
  }

  /** `optimize(module, package)`: the module with its tree after every pass. */
  function Optimized(mod: Registry.Module, package: Option<Registry.Package>): (r: Result<Registry.Module>)
    requires mod.node.Some? ==> WellFormed(mod.node.value)
    ensures r.Ok? ==> r.value.location == mod.location && r.value.path == mod.path && r.value.node.Some?
    ensures r.Err? <==> FindConstants(mod, package).Err?
  {
    match FindConstants(mod, package)
    case Err(e) => Err(e)
    case Ok(found) =>
      FoundEligible(mod, package, mod.node.value, []);
      Ok(mod.(node := Some(InlineEach(mod.node.value, found))))
  }

  method Optimize(mod: Registry.Module, package: Option<Registry.Package>) returns (r: Result<Registry.Module>)
    requires mod.node.Some? ==> WellFormed(mod.node.value)
    ensures r == Optimized(mod, package)
  {
    var finder := new ConstantFinder(mod, package);
    var found := finder.Call();
    if found.Err? {
      return Err(found.error);
    }
    FoundEligible(mod, package, mod.node.value, []);
    var tree := InlineAll(mod.node.value, found.value);
    r := Ok(mod.(node := Some(tree)));
  }

  /** Runs one inliner pass per finder result over the tree, in the finder's order. */
  method InlineAll(tree0: Node, found: seq<FinderResult>) returns (tree: Node)
    requires Inlinable(found)
    ensures tree == InlineEach(tree0, found)
  {
    tree := tree0;
    var i := 0;
    while i < |found|
      invariant i <= |found|
      invariant tree == InlineEach(tree0, found[..i])
    {
      assert found[..i + 1][..i] == found[..i];
      tree := Inline(tree, Current(tree, found[i]));
      i := i + 1;
    }
    assert found[..i] == found;
  }

  /** Every result is a well-formed assignment, and one with a position is the node of the tree there. */
  predicate Anchored(tree: Node, found: seq<FinderResult>) {
    forall k :: 0 <= k < |found| ==>
      && WellFormed(found[k].node)
      && (found[k].at.Some? ==> ValidPath(tree, found[k].at.value) && At(tree, found[k].at.value) == found[k].node)
  }

  lemma AnchoredFront(tree: Node, found: seq<FinderResult>)
    requires Inlinable(found) && Anchored(tree, found) && found != []
    ensures Inlinable(found[..|found| - 1]) && Anchored(tree, found[..|found| - 1])
  {
    var front := found[..|found| - 1];
    assert forall k :: 0 <= k < |front| ==> front[k] == found[k];
  }

  /** Rewriting loads with c's value keeps a tree well-formed when c is. */
  lemma {:induction false} InlineWellFormed(n: Node, c: Node)
    requires c.kind.Assign? && WellFormed(c) && WellFormed(n)
    ensures WellFormed(Inline(n, c))
  {
    if !Inlined(n, c) {
      forall k | 0 <= k < |n.kids|
        ensures WellFormed(Inline(n.kids[k], c))
      {
        InlineWellFormed(n.kids[k], c);
      }
    }
  }

  lemma {:induction false} InlineEachWellFormed(tree: Node, found: seq<FinderResult>)
    requires Inlinable(found) && WellFormed(tree) && Anchored(tree, found)
    ensures WellFormed(InlineEach(tree, found))
    decreases |found|
  {
    if found != [] {
      var front, f := found[..|found| - 1], found[|found| - 1];
      AnchoredFront(tree, found);
      InlineEachWellFormed(tree, front);
      var before := InlineEach(tree, front);
      if f.at.Some? && ValidPath(before, f.at.value) {
        WellFormedAt(before, f.at.value);
      }
      InlineWellFormed(before, Current(before, f));
    }
  }

  /**
   * The passes only rewrite loads: every position of the tree is still
   * there, and a node other than a load keeps its kind, its location and
   * its number of children.
   */
  lemma {:induction false} InlineEachKeeps(tree: Node, found: seq<FinderResult>, p: Path)
    requires Inlinable(found) && WellFormed(tree) && Anchored(tree, found) && ValidPath(tree, p)
    ensures ValidPath(InlineEach(tree, found), p)
    ensures !IsLoadName(At(tree, p)) ==>
      && At(InlineEach(tree, found), p).kind == At(tree, p).kind
      && At(InlineEach(tree, found), p).loc == At(tree, p).loc
      && |At(InlineEach(tree, found), p).kids| == |At(tree, p).kids|
    decreases |found|
  {
    if found != [] {
      var front := found[..|found| - 1];
      AnchoredFront(tree, found);
      InlineEachKeeps(tree, front, p);
      InlineEachWellFormed(tree, front);
      var before := InlineEach(tree, front);
      InlineAt(before, Current(before, found[|found| - 1]), p);
    }
  }

  /** `optimize` only rewrites loads: the rest of the module's tree keeps its shape. */
  lemma OptimizedKeeps(mod: Registry.Module, package: Option<Registry.Package>, p: Path)
    requires HasTree(mod) && Optimized(mod, package).Ok? && ValidPath(mod.node.value, p)
    ensures ValidPath(Optimized(mod, package).value.node.value, p)
    ensures !IsLoadName(At(mod.node.value, p)) ==>
      && At(Optimized(mod, package).value.node.value, p).kind == At(mod.node.value, p).kind
      && At(Optimized(mod, package).value.node.value, p).loc == At(mod.node.value, p).loc
      && |At(Optimized(mod, package).value.node.value, p).kids| == |At(mod.node.value, p).kids|
  {
    FoundEligible(mod, package, mod.node.value, []);
    InlineEachKeeps(mod.node.value, FindConstants(mod, package).value, p);
  }

  lemma {:induction false} InlineEachUnused(tree: Node, found: seq<FinderResult>)
    requires Inlinable(found) && Anchored(tree, found)
    requires forall k :: 0 <= k < |found| ==> !Uses(tree, found[k].node)
    ensures InlineEach(tree, found) == tree
    decreases |found|
  {
    if found != [] {
      var front, f := found[..|found| - 1], found[|found| - 1];
      AnchoredFront(tree, found);
      assert forall k :: 0 <= k < |front| ==> front[k] == found[k];
      InlineEachUnused(tree, front);
      assert Current(tree, f) == f.node;
      InlineUnused(tree, f.node);
    }
  }

  /** A module that loads none of the names the finder reports comes back unchanged. */
  lemma OptimizedUnused(mod: Registry.Module, package: Option<Registry.Package>)
    requires HasTree(mod) && FindConstants(mod, package).Ok?
    requires forall k :: 0 <= k < |FindConstants(mod, package).value| ==>
      var c := FindConstants(mod, package).value[k].node;
      c.kind.Assign? && Shaped(c) ==> !Uses(mod.node.value, c)
    ensures Optimized(mod, package) == Ok(mod)
  {
    FoundEligible(mod, package, mod.node.value, []);
    InlineEachUnused(mod.node.value, FindConstants(mod, package).value);
  }

  /** Every target of the assignment c is a Name in Store context. */
  predicate StoreTargets(c: Node)
    requires c.kind.Assign? && Shaped(c)
  {
    forall k :: 0 <= k < |Targets(c)| ==> Targets(c)[k].kind.Name? && Targets(c)[k].kind.ctx == Store
  }

  predicate AllStoreTargets(found: seq<FinderResult>) {
    forall k :: 0 <= k < |found| ==> found[k].node.kind.Assign? && Shaped(found[k].node) && StoreTargets(found[k].node)
  }

  /** The pass sequence with the inliner as written, which raises in the first pass whose assignment has a target that is not a Name. */
  function InlineEachAsWritten(tree: Node, found: seq<FinderResult>): Result<Node>
    requires Inlinable(found)
    decreases |found|
  {
    if found == [] then Ok(tree)
    else
      match InlineEachAsWritten(tree, found[..|found| - 1])
      case Err(e) => Err(e)
      case Ok(before) => InlineAsWritten(before, Current(before, found[|found| - 1]))
  }

  /** `optimize(module, package)` as written. */
  function OptimizedAsWritten(mod: Registry.Module, package: Option<Registry.Package>): Result<Registry.Module>
    requires mod.node.Some? ==> WellFormed(mod.node.value)
  {
    match FindConstants(mod, package)
    case Err(e) => Err(e)
    case Ok(found) =>
      FoundEligible(mod, package, mod.node.value, []);
      match InlineEachAsWritten(mod.node.value, found)
      case Err(e) => Err(e)
      case Ok(tree) => Ok(mod.(node := Some(tree)))
  }

  /** A pass reads the assignment at its position: its targets are still the Names they were. */
  lemma CurrentTargets(tree: Node, front: seq<FinderResult>, f: FinderResult)
    requires Inlinable(front) && WellFormed(tree) && Anchored(tree, front)
    requires f.node.kind.Assign? && Shaped(f.node) && StoreTargets(f.node)
    requires f.at.Some? ==> ValidPath(tree, f.at.value) && At(tree, f.at.value) == f.node
    ensures AllNames(Targets(Current(InlineEach(tree, front), f)))
  {
    var before := InlineEach(tree, front);
    var c := Current(before, f);
    if c != f.node {
      var at := f.at.value;
      InlineEachKeeps(tree, front, at);
      forall k | 0 <= k < |Targets(c)|
        ensures Targets(c)[k].kind.Name?
      {
        AtSnoc(tree, at, k);
        assert f.node.kids[k] == Targets(f.node)[k];
        InlineEachKeeps(tree, front, at + [k]);
        AtSnoc(before, at, k);
      }
    }
  }

  lemma {:induction false} InlineEachAsWrittenAgrees(tree: Node, found: seq<FinderResult>)
    requires Inlinable(found) && WellFormed(tree) && Anchored(tree, found)
    ensures InlineEachAsWritten(tree, found).Ok? ==> InlineEachAsWritten(tree, found).value == InlineEach(tree, found)
    ensures AllStoreTargets(found) ==> InlineEachAsWritten(tree, found).Ok?
    decreases |found|
  {
    if found != [] {
      var front, f := found[..|found| - 1], found[|found| - 1];
      AnchoredFront(tree, found);
      InlineEachAsWrittenAgrees(tree, front);
      if AllStoreTargets(found) {
        assert forall k :: 0 <= k < |front| ==> front[k] == found[k];
      }
      if InlineEachAsWritten(tree, front).Ok? {
        var before := InlineEach(tree, front);
        AsWrittenAgrees(before, Current(before, f));
        if AllStoreTargets(found) {
          CurrentTargets(tree, front, f);
        }
      }
    }
  }

  /**
   * `optimize` as written returns what Optimized returns wherever it does
   * not raise, raises what the finder raises, and raises nothing more when
   * every reported assignment has only Store Names as targets.
   */
  lemma OptimizedAsWrittenAgrees(mod: Registry.Module, package: Option<Registry.Package>)
    requires HasTree(mod)
    ensures OptimizedAsWritten(mod, package).Ok? ==> OptimizedAsWritten(mod, package) == Optimized(mod, package)
    ensures FindConstants(mod, package).Err? ==> OptimizedAsWritten(mod, package) == Optimized(mod, package)
    ensures FindConstants(mod, package).Ok? && AllStoreTargets(FindConstants(mod, package).value) ==>
      OptimizedAsWritten(mod, package) == Optimized(mod, package)
  {
    if FindConstants(mod, package).Ok? {
      FoundEligible(mod, package, mod.node.value, []);
      InlineEachAsWrittenAgrees(mod.node.value, FindConstants(mod, package).value);
    }
  }

  // ----- examples -----

  function Statement(k: Kind, kids: seq<Node>): Node {
    Node(k, kids, None)
  }

  /** `FIVE = THREE` then `FIVE += TWO`: the augmented assignment counts, so FIVE is no constant. */
  lemma AugmentedIsCounted()
    ensures IsConstantIn(Registry.Module("/m.py", "/m", Some(Statement(Module, [
              Statement(Assign, [Leaf(Name("FIVE", Store)), Leaf(Name("THREE", Load))]),
              Statement(AugAssign, [Leaf(Name("FIVE", Store)), Leaf(Name("TWO", Load))])]))), "FIVE")
            == Ok(false)
  {
    var first := Statement(Assign, [Leaf(Name("FIVE", Store)), Leaf(Name("THREE", Load))]);
    var second := Statement(AugAssign, [Leaf(Name("FIVE", Store)), Leaf(Name("TWO", Load))]);
    var root := Statement(Module, [first, second]);
    assert Assignments(first, Some("FIVE")) == Ok([Leaf(Name("THREE", Load))]);
    assert Assignments(second, Some("FIVE")) == Ok([Leaf(Name("TWO", Load))]);
    var none: seq<Node> := [];
    assert root.kids[0] == first && root.kids[1] == second;
    assert AssignmentsIn(root, 1, Some("FIVE")) == Ok(none + [Leaf(Name("THREE", Load))]);
    assert AssignmentsIn(root, 2, Some("FIVE")) == Ok(AssignmentsIn(root, 1, Some("FIVE")).value + Assignments(root.kids[1], Some("FIVE")).value);
  }

  lemma InlineLeaf(n: Node, c: Node)
    requires c.kind.Assign? && Shaped(c) && n.kids == [] && !Inlined(n, c)
    ensures Inline(n, c) == n
  {
    assert Inline(n, c).kids == [];
  }

  lemma AssignmentsLeaf(n: Node, name: Option<string>)
    requires n.kids == [] && !n.kind.Assign? && !n.kind.AugAssign? && Shaped(n)
    ensures Assignments(n, name) == Ok([])
  {
    assert AssignmentsIn(n, 0, name) == Ok([]);
  }

  /** A statement holding only a load has no assignment. */
  lemma AssignmentsOfLoad(tag: string, id: string, name: Option<string>)
    ensures Assignments(Statement(Other(tag), [Leaf(Name(id, Load))]), name) == Ok([])
  {
    var n := Statement(Other(tag), [Leaf(Name(id, Load))]);
    var none: seq<Node> := [];
    AssignmentsLeaf(n.kids[0], name);
    assert |n.kids| == 1 && AssignmentsIn(n, 0, name) == Ok(none);
    assert AssignmentsIn(n, 1, name) == Ok(none + none);
    assert none + none == none;
  }

  /** ... nor anything for ConstantFinder to report. */
  lemma FoundOfLoad(mod: Registry.Module, package: Option<Registry.Package>, tag: string, id: string, at: Path)
    requires HasTree(mod)
    ensures Found(mod, package, Statement(Other(tag), [Leaf(Name(id, Load))]), at) == Ok([])
  {
    var n := Statement(Other(tag), [Leaf(Name(id, Load))]);
    var none: seq<FinderResult> := [];
    assert |n.kids| == 1 && FoundIn(mod, package, n, at, 0) == Ok(none);
    assert FoundIn(mod, package, n.kids[0], at + [0], 0) == Ok(none);
    assert FoundIn(mod, package, n, at, 1) == Ok(none + none);
    assert none + none == none;
  }

  /** Inlining the assignment `name = value` (its first target) into a load of `name`. */
  lemma InlineLoad(name: string, c: Node)
    requires c.kind.Assign? && Shaped(c) && c.kids[0] == Leaf(Name(name, Store)) && c.loc.None?
    ensures Inline(Leaf(Name(name, Load)), c) == AssignValue(c)
  {
    assert Targets(c)[0] == c.kids[0];
  }

  // `THREE = 3`, `SEVEN = THREE`, `print SEVEN`

  function ThreeStmt(): Node {
    Statement(Assign, [Leaf(Name("THREE", Store)), Leaf(Num(3))])
  }

  function SevenStmt(): Node {
    Statement(Assign, [Leaf(Name("SEVEN", Store)), Leaf(Name("THREE", Load))])
  }

  function PrintStmt(): Node {
    Statement(Other("Print"), [Leaf(Name("SEVEN", Load))])
  }

  function SevenModule(): Registry.Module {
    Registry.Module("/m.py", "/m", Some(Statement(Module, [ThreeStmt(), SevenStmt(), PrintStmt()])))
  }

  lemma AssignmentsStep(n: Node, i: nat, name: Option<string>, front: seq<Node>, more: seq<Node>)
    requires WellFormed(n) && 0 < i <= |n.kids|
    requires AssignmentsIn(n, i - 1, name) == Ok(front) && Assignments(n.kids[i - 1], name) == Ok(more)
    ensures AssignmentsIn(n, i, name) == Ok(front + more)
  {
  }

  lemma FoundStep(mod: Registry.Module, package: Option<Registry.Package>, n: Node, at: Path, i: nat, front: seq<FinderResult>, more: seq<FinderResult>)
    requires HasTree(mod) && WellFormed(n) && 0 < i <= |n.kids|
    requires FoundIn(mod, package, n, at, i - 1) == Ok(front) && Found(mod, package, n.kids[i - 1], at + [i - 1]) == Ok(more)
    ensures FoundIn(mod, package, n, at, i) == Ok(front + more)
  {
  }

  lemma SevenModuleWellFormed()
    ensures WellFormed(SevenModule().node.value)
    ensures SevenModule().node.value.kids == [ThreeStmt(), SevenStmt(), PrintStmt()]
  {
    assert WellFormed(ThreeStmt()) && WellFormed(SevenStmt()) && WellFormed(PrintStmt());
  }

  /** What each statement counts for a name. */
  lemma SevenModuleCounts(name: string)
    requires name == "THREE" || name == "SEVEN"
    ensures Assignments(ThreeStmt(), Some(name)) == Ok(if name == "THREE" then [Leaf(Num(3))] else [])
    ensures Assignments(SevenStmt(), Some(name)) == Ok(if name == "SEVEN" then [Leaf(Name("THREE", Load))] else [])
    ensures Assignments(PrintStmt(), Some(name)) == Ok([])
  {
    assert "THREE" != "SEVEN";
    AssignmentsOfLoad("Print", "SEVEN", Some(name));
  }

  /** The walk over the module's three statements collects the three statements' counts. */
  lemma SevenModuleWalk(name: string, a: seq<Node>, b: seq<Node>, c: seq<Node>)
    requires Assignments(ThreeStmt(), Some(name)) == Ok(a)
    requires Assignments(SevenStmt(), Some(name)) == Ok(b)
    requires Assignments(PrintStmt(), Some(name)) == Ok(c)
    ensures Assignments(SevenModule().node.value, Some(name)) == Ok(a + b + c)
  {
    SevenModuleWellFormed();
    var root := SevenModule().node.value;
    var none: seq<Node> := [];
    assert AssignmentsIn(root, 0, Some(name)) == Ok(none);
    AssignmentsStep(root, 1, Some(name), none, a);
    assert none + a == a;
    AssignmentsStep(root, 2, Some(name), a, b);
    AssignmentsStep(root, 3, Some(name), a + b, c);
  }

  lemma ThreeIsConstant()
    ensures IsConstantIn(SevenModule(), "THREE") == Ok(true)
  {
    SevenModuleWellFormed();
    SevenModuleCounts("THREE");
    var none: seq<Node> := [];
    SevenModuleWalk("THREE", [Leaf(Num(3))], none, none);
    assert [Leaf(Num(3))] + none + none == [Leaf(Num(3))];
  }

  lemma SevenIsConstant()
    ensures IsConstantIn(SevenModule(), "SEVEN") == Ok(true)
  {
    SevenModuleWellFormed();
    SevenModuleCounts("SEVEN");
    var none: seq<Node> := [];
    SevenModuleWalk("SEVEN", none, [Leaf(Name("THREE", Load))], none);
    assert none + [Leaf(Name("THREE", Load))] + none == [Leaf(Name("THREE", Load))];
  }

  lemma SevenModuleReports()
    ensures FoundAt(SevenModule(), None, ThreeStmt(), [0]) == Ok([FinderResult(ThreeStmt(), SevenModule(), None, Some([0]))])
    ensures FoundAt(SevenModule(), None, SevenStmt(), [1]) == Ok([FinderResult(SevenStmt(), SevenModule(), None, Some([1]))])
  {
    ThreeIsConstant();
    SevenIsConstant();
  }

  lemma SevenModuleFoundWalk(a: seq<FinderResult>, b: seq<FinderResult>, c: seq<FinderResult>)
    requires SevenModule().node.value.kids == [ThreeStmt(), SevenStmt(), PrintStmt()] && WellFormed(SevenModule().node.value)
    requires Found(SevenModule(), None, ThreeStmt(), [0]) == Ok(a)
    requires Found(SevenModule(), None, SevenStmt(), [1]) == Ok(b)
    requires Found(SevenModule(), None, PrintStmt(), [2]) == Ok(c)
    ensures FindConstants(SevenModule(), None) == Ok(a + b + c)
  {
    var mod := SevenModule();
    var root := mod.node.value;
    var none: seq<FinderResult> := [];
    var top: Path := [];
    assert top + [0] == [0] && top + [1] == [1] && top + [2] == [2];
    assert FoundIn(mod, None, root, [], 0) == Ok(none);
    FoundStep(mod, None, root, [], 1, none, a);
    assert none + a == a;
    FoundStep(mod, None, root, [], 2, a, b);
    FoundStep(mod, None, root, [], 3, a + b, c);
  }

  lemma SevenModuleFound()
    ensures FindConstants(SevenModule(), None)
            == Ok([FinderResult(ThreeStmt(), SevenModule(), None, Some([0])), FinderResult(SevenStmt(), SevenModule(), None, Some([1]))])
  {
    var mod := SevenModule();
    SevenModuleWellFormed();
    SevenModuleReports();
    FoundOfLoad(mod, None, "Print", "SEVEN", [2]);
    var r1 := FinderResult(ThreeStmt(), mod, None, Some([0]));
    var r2 := FinderResult(SevenStmt(), mod, None, Some([1]));
    var none: seq<FinderResult> := [];
    SevenModuleFoundWalk([r1], [r2], none);
    assert [r1] + [r2] + none == [r1, r2];
  }

  lemma SevenModuleFirstPass()
    ensures Inline(SevenModule().node.value, ThreeStmt())
            == Statement(Module, [ThreeStmt(), Statement(Assign, [Leaf(Name("SEVEN", Store)), Leaf(Num(3))]), PrintStmt()])
  {
    var three := ThreeStmt();
    var seven := SevenStmt();
    var show := PrintStmt();
    var seven' := Statement(Assign, [Leaf(Name("SEVEN", Store)), Leaf(Num(3))]);
    assert Targets(three) == [Leaf(Name("THREE", Store))];
    InlineLeaf(three.kids[0], three);
    InlineLeaf(three.kids[1], three);
    assert Inline(three, three).kids == three.kids;
    InlineLeaf(seven.kids[0], three);
    InlineLoad("THREE", three);
    assert Inline(seven, three).kids == seven'.kids;
    InlineLeaf(show.kids[0], three);
    assert Inline(show, three).kids == show.kids;
    assert Inline(SevenModule().node.value, three).kids == [three, seven', show];
  }

  lemma SevenModuleSecondPass()
    ensures Inline(Statement(Module, [ThreeStmt(), Statement(Assign, [Leaf(Name("SEVEN", Store)), Leaf(Num(3))]), PrintStmt()]),
                   Statement(Assign, [Leaf(Name("SEVEN", Store)), Leaf(Num(3))]))
            == Statement(Module, [ThreeStmt(), Statement(Assign, [Leaf(Name("SEVEN", Store)), Leaf(Num(3))]), Statement(Other("Print"), [Leaf(Num(3))])])
  {
    var three := ThreeStmt();
    var seven' := Statement(Assign, [Leaf(Name("SEVEN", Store)), Leaf(Num(3))]);
    var show := PrintStmt();
    assert Targets(seven') == [Leaf(Name("SEVEN", Store))];
    InlineLeaf(three.kids[0], seven');
    InlineLeaf(three.kids[1], seven');
    assert Inline(three, seven').kids == three.kids;
    InlineLeaf(seven'.kids[0], seven');
    InlineLeaf(seven'.kids[1], seven');
    assert Inline(seven', seven').kids == seven'.kids;
    InlineLoad("SEVEN", seven');
    assert Inline(show, seven').kids == [Leaf(Num(3))];
  }

  /**
   * The pass for THREE rewrites SEVEN's value in the tree, and the pass for
   * SEVEN then reads the rewritten assignment, so the printed name becomes 3.
   */
  lemma InliningFlowsIntoLaterConstants()
    ensures Optimized(SevenModule(), None)
            == Ok(SevenModule().(node := Some(Statement(Module, [
                 ThreeStmt(),
                 Statement(Assign, [Leaf(Name("SEVEN", Store)), Leaf(Num(3))]),
                 Statement(Other("Print"), [Leaf(Num(3))])]))))
  {
    SevenModuleWellFormed();
    SevenModuleFound();
    SevenInlineEach();
  }

  /** The two passes in the finder's order: THREE's first, then SEVEN's on the rewritten tree. */
  lemma SevenInlineEach()
    ensures var mod := SevenModule();
      Inlinable([FinderResult(ThreeStmt(), mod, None, Some([0])), FinderResult(SevenStmt(), mod, None, Some([1]))]) &&
      InlineEach(mod.node.value, [FinderResult(ThreeStmt(), mod, None, Some([0])), FinderResult(SevenStmt(), mod, None, Some([1]))])
      == Statement(Module, [ThreeStmt(), Statement(Assign, [Leaf(Name("SEVEN", Store)), Leaf(Num(3))]), Statement(Other("Print"), [Leaf(Num(3))])])
  {
    var mod := SevenModule();
    var r1 := FinderResult(ThreeStmt(), mod, None, Some([0]));
    var r2 := FinderResult(SevenStmt(), mod, None, Some([1]));
    SevenCurrents();
    SevenModuleFirstPass();
    SevenModuleSecondPass();
    InlineEachPair(mod.node.value, r1, r2);
  }

  /** Two passes: the second reads its assignment from the tree the first left. */
  lemma InlineEachPair(tree: Node, r1: FinderResult, r2: FinderResult)
    requires r1.node.kind.Assign? && Shaped(r1.node) && r2.node.kind.Assign? && Shaped(r2.node)
    ensures Inlinable([r1, r2])
    ensures var tree1 := Inline(tree, Current(tree, r1));
      InlineEach(tree, [r1, r2]) == Inline(tree1, Current(tree1, r2))
  {
    assert [r1, r2][..1] == [r1];
    assert [r1][..0] == [];
    assert InlineEach(tree, [r1]) == Inline(tree, Current(tree, r1));
  }

  /** The assignment each pass reads: THREE's from the tree, SEVEN's from the tree THREE's pass left. */
  lemma SevenCurrents()
    ensures Current(SevenModule().node.value, FinderResult(ThreeStmt(), SevenModule(), None, Some([0]))) == ThreeStmt()
    ensures Current(Statement(Module, [ThreeStmt(), Statement(Assign, [Leaf(Name("SEVEN", Store)), Leaf(Num(3))]), PrintStmt()]),
                    FinderResult(SevenStmt(), SevenModule(), None, Some([1])))
            == Statement(Assign, [Leaf(Name("SEVEN", Store)), Leaf(Num(3))])
  {
    var seven' := Statement(Assign, [Leaf(Name("SEVEN", Store)), Leaf(Num(3))]);
    var tree1 := Statement(Module, [ThreeStmt(), seven', PrintStmt()]);
    assert At(SevenModule().node.value, [0]) == ThreeStmt();
    assert At(tree1, [1]) == seven';
  }

  // `X = o.y = 1`: a chained assignment whose second target is an attribute

  function ChainedStmt(): Node {
    Statement(Assign, [Leaf(Name("X", Store)), Statement(Other("Attribute"), [Leaf(Name("o", Load))]), Leaf(Num(1))])
  }

  function ChainedModule(): Registry.Module {
    Registry.Module("/m.py", "/m", Some(Statement(Module, [ChainedStmt()])))
  }

  lemma ChainedModuleShape()
    ensures WellFormed(ChainedStmt()) && WellFormed(ChainedModule().node.value)
    ensures ChainedModule().node.value.kids == [ChainedStmt()]
  {
    assert WellFormed(ChainedStmt().kids[1]);
  }

  /** X is assigned once in the module, to a number. */
  lemma ChainedIsConstant()
    ensures IsConstantIn(ChainedModule(), "X") == Ok(true)
  {
    var root := ChainedModule().node.value;
    ChainedModuleShape();
    var none: seq<Node> := [];
    assert AssignmentsIn(root, 0, Some("X")) == Ok(none);
    AssignmentsStep(root, 1, Some("X"), none, [Leaf(Num(1))]);
    assert none + [Leaf(Num(1))] == [Leaf(Num(1))];
  }

  /** X is assigned once, to a number, so ConstantFinder reports the statement. */
  lemma ChainedIsReported()
    ensures FindConstants(ChainedModule(), None) == Ok([FinderResult(ChainedStmt(), ChainedModule(), None, Some([0]))])
  {
    var mod := ChainedModule();
    var root := mod.node.value;
    var s := ChainedStmt();
    ChainedModuleShape();
    ChainedIsConstant();
    var r := FinderResult(s, mod, None, Some([0]));
    var top: Path := [];
    assert top + [0] == [0];
    var nothing: seq<FinderResult> := [];
    assert FoundIn(mod, None, root, [], 0) == Ok(nothing);
    FoundStep(mod, None, root, [], 1, nothing, [r]);
    assert nothing + [r] == [r];
  }

  /**
   * Inlining X as written: the load of `o` inside the statement makes the
   * generator read `.id` of the attribute target, which raises.
   */
  lemma ChainedTargetRaises()
    ensures InlineAsWritten(ChainedModule().node.value, ChainedStmt()) == Err(AttributeError)
  {
    var s := ChainedStmt();
    var attr := s.kids[1];
    assert Targets(s) == [Leaf(Name("X", Store)), attr];
    assert "X" != "o";
    assert IdIn("o", Targets(s)) == Err(AttributeError);
    assert InlineAsWritten(attr.kids[0], s) == Err(AttributeError);
    assert InlineKidsAsWritten(attr, 1, s).Err?;
    assert InlineAsWritten(attr, s) == Err(AttributeError);
    assert InlineKidsAsWritten(s, 2, s).Err?;
    assert InlineKidsAsWritten(s, 3, s).Err?;
    assert InlineAsWritten(s, s) == Err(AttributeError);
    assert InlineKidsAsWritten(ChainedModule().node.value, 1, s).Err?;
  }

  /** The corrected pass leaves the module alone: nothing loads X. */
  lemma ChainedTargetCorrected()
    ensures Inline(ChainedModule().node.value, ChainedStmt()) == ChainedModule().node.value
  {
    var s := ChainedStmt();
    assert Targets(s) == [Leaf(Name("X", Store)), s.kids[1]];
    assert "X" != "o";
    assert !Uses(s.kids[0], s) && !Uses(s.kids[2], s);
    assert !Uses(s.kids[1].kids[0], s);
    assert !Uses(s.kids[1], s);
    assert !Uses(s, s);
    assert !Uses(ChainedModule().node.value, s);
    InlineUnused(ChainedModule().node.value, s);
  }

  /** So `optimize` as written raises on the module, while Optimized hands it back unchanged. */
  lemma ChainedOptimizeRaises()
    ensures OptimizedAsWritten(ChainedModule(), None) == Err(AttributeError)
    ensures Optimized(ChainedModule(), None) == Ok(ChainedModule())
  {
    var mod := ChainedModule();
    var root := mod.node.value;
    var s := ChainedStmt();
    var r := FinderResult(s, mod, None, Some([0]));
    ChainedIsReported();
    assert [r][..0] == [];
    assert Current(root, r) == s;
    ChainedTargetRaises();
    ChainedTargetCorrected();
  }
}
