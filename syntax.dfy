/**
 * The subset of Python 2's `ast` module that the analysis code inspects.
 *
 * A node is its kind (with the kind's scalar fields), its AST children in
 * field order and its source location. The children are what
 * `ast.iter_child_nodes` yields except the expression-context (Load/Store)
 * and operator nodes, which are kept as fields of the kind instead.
 *
 * Nodes are compared by identity in the analysed code. Apart from those
 * context and operator objects, which CPython shares between all nodes, a
 * parsed tree shares no node, so a node is identified by its position: the
 * path of child indices that leads to it from the root.
 */
module Syntax {
  import opened Wrappers

  datatype Ctx = Load | Store | OtherCtx

  datatype Op = Sub | OtherOp

  /** lineno and col_offset, copied around but never interpreted */
  datatype Loc = Loc(line: int, col: int)

  datatype Kind =
    | Module                                                // body...
    | FunctionDef(name: string)                             // args, body..., decorators...
    | ClassDef(name: string)                                // bases..., body..., decorators...
    | Import                                                // aliases...
    | ImportFrom(modname: Option<string>, level: nat)       // aliases...
    | Alias(name: string, asname: Option<string>)
    | Assign                                                // targets..., value
    | AugAssign                                             // target, value
    | Global(names: seq<string>)
    | Arguments(nargs: nat, vararg: Option<string>, kwarg: Option<string>)  // args..., defaults...
    | Name(id: string, ctx: Ctx)
    | Tuple(ctx: Ctx)                                       // elts...
    | List(ctx: Ctx)                                        // elts...
    | Num(n: int)
    | Str(s: string)
    | Call(nargs: nat)                                      // func, args..., keywords and star arguments...
    | BinOp(op: Op)                                         // left, right
    | Subscript(ctx: Ctx)                                   // value, slice
    | Index                                                 // value
    | For                                                   // target, iter, body..., orelse...
    | Other(tag: string)                                    // any kind the code never tests for

  datatype Node = Node(kind: Kind, kids: seq<Node>, loc: Option<Loc>)

  /** The arity the parser guarantees for each kind. */
  predicate Shaped(n: Node) {
    match n.kind
    case Alias(_, _) => n.kids == []
    case Global(_) => n.kids == []
    case Name(_, _) => n.kids == []
    case Num(_) => n.kids == []
    case Str(_) => n.kids == []
    case Assign => |n.kids| >= 2
    case AugAssign => |n.kids| == 2
    case Arguments(k, _, _) => k <= |n.kids|
    case Call(k) => 1 + k <= |n.kids|
    case BinOp(_) => |n.kids| == 2
    case Subscript(_) => |n.kids| == 2
    case Index => |n.kids| == 1
    case For => |n.kids| >= 2
    case _ => true
  }

  /** Every node of the tree has the arity of its kind: what `ast.parse` produces. */
  predicate WellFormed(n: Node) {
    Shaped(n) && forall i :: 0 <= i < |n.kids| ==> WellFormed(n.kids[i])
  }

  // ----- field accessors, in the order of the kinds' fields -----

  function Targets(n: Node): seq<Node>
    requires n.kind.Assign? && Shaped(n)
  {
    n.kids[..|n.kids| - 1]
  }

  function AssignValue(n: Node): Node
    requires (n.kind.Assign? || n.kind.AugAssign?) && Shaped(n)
  {
    n.kids[|n.kids| - 1]
  }

  function CallArgs(n: Node): seq<Node>
    requires n.kind.Call? && Shaped(n)
  {
    n.kids[1..1 + n.kind.nargs]
  }

  /** The k-th argument of a call is its child k + 1. */
  lemma CallArgsAt(n: Node, k: nat)
    requires n.kind.Call? && Shaped(n) && k < n.kind.nargs
    ensures |CallArgs(n)| == n.kind.nargs && CallArgs(n)[k] == n.kids[k + 1]
  {
  }

  function Params(n: Node): seq<Node>
    requires n.kind.Arguments? && Shaped(n)
  {
    n.kids[..n.kind.nargs]
  }

  predicate IsName(n: Node) {
    n.kind.Name?
  }

  /** A Name node with identifier `id` */
  predicate IsNamed(n: Node, id: string) {
    n.kind.Name? && n.kind.id == id
  }

  predicate IsStoreName(n: Node, id: string) {
    n.kind == Name(id, Store)
  }

  predicate IsLoadName(n: Node) {
    n.kind.Name? && n.kind.ctx == Load
  }

  /** No For loop in n, n included. */
  predicate NoFor(n: Node) {
    !n.kind.For? && forall k :: 0 <= k < |n.kids| ==> NoFor(n.kids[k])
  }

  // ----- sizes -----

  function Size(n: Node): nat
  {
    1 + SumSizes(n.kids)
  }

  function SumSizes(s: seq<Node>): nat
  {
    if s == [] then 0 else SumSizes(s[..|s| - 1]) + Size(s[|s| - 1])
  }

  lemma {:induction false} SumSizesAppend(s: seq<Node>, t: seq<Node>)
    ensures SumSizes(s + t) == SumSizes(s) + SumSizes(t)
    decreases |t|
  {
    if t == [] {
      assert s + t == s;
    } else {
      assert (s + t)[..|s + t| - 1] == s + t[..|t| - 1];
      SumSizesAppend(s, t[..|t| - 1]);
    }
  }

  // ----- positions -----

  type Path = seq<nat>

  predicate ValidPath(n: Node, p: Path)
    decreases |p|
  {
    p == [] || (p[0] < |n.kids| && ValidPath(n.kids[p[0]], p[1..]))
  }

  /** The node found at position p */
  function At(n: Node, p: Path): Node
    requires ValidPath(n, p)
    decreases |p|
  {
    if p == [] then n else At(n.kids[p[0]], p[1..])
  }

  predicate IsPrefix(a: Path, b: Path) {
    |a| <= |b| && b[..|a|] == a
  }

  predicate IsStrictPrefix(a: Path, b: Path) {
    |a| < |b| && b[..|a|] == a
  }

  /** The position of the parent of the node at p */
  function Up(p: Path): Path
    requires p != []
  {
    p[..|p| - 1]
  }

  /** Extending a valid position by one child index. */
  lemma {:induction false} AtSnoc(n: Node, p: Path, i: nat)
    requires ValidPath(n, p)
    ensures ValidPath(n, p + [i]) <==> i < |At(n, p).kids|
    ensures i < |At(n, p).kids| ==> At(n, p + [i]) == At(n, p).kids[i]
    decreases |p|
  {
    if p == [] {
      assert p + [i] == [i];
      assert [i][1..] == [];
    } else {
      assert (p + [i])[0] == p[0];
      assert (p + [i])[1..] == p[1..] + [i];
      AtSnoc(n.kids[p[0]], p[1..], i);
    }
  }

  /** Every prefix of a valid position is valid, and the next index is in range there. */
  lemma {:induction false} ValidPrefix(n: Node, q: Path, k: nat)
    requires ValidPath(n, q) && k <= |q|
    ensures ValidPath(n, q[..k])
    ensures k < |q| ==> q[k] < |At(n, q[..k]).kids| && ValidPath(n, q[..k + 1])
    decreases k
  {
    if k == 0 {
      assert q[..0] == [];
      if k < |q| {
        assert q[..1] == [q[0]];
        assert [q[0]][1..] == [];
      }
    } else {
      assert q[..k][0] == q[0];
      assert q[..k][1..] == q[1..][..k - 1];
      ValidPrefix(n.kids[q[0]], q[1..], k - 1);
      if k < |q| {
        assert q[..k + 1][1..] == q[1..][..k];
        assert q[1..][k - 1] == q[k];
      }
    }
  }

  /** The well-formedness of a tree holds at every position in it. */
  lemma {:induction false} WellFormedAt(n: Node, p: Path)
    requires WellFormed(n) && ValidPath(n, p)
    ensures WellFormed(At(n, p))
    decreases |p|
  {
    if p != [] {
      WellFormedAt(n.kids[p[0]], p[1..]);
    }
  }

  /**
   * q leads from n to an Assign statement without passing through another
   * one: the statements a visitor reaches when its `visit_Assign` does not
   * descend into the statement.
   */
  predicate OutermostAssign(n: Node, q: Path)
    decreases |q|
  {
    if q == [] then n.kind.Assign?
    else !n.kind.Assign? && q[0] < |n.kids| && OutermostAssign(n.kids[q[0]], q[1..])
  }

  lemma {:induction false} OutermostAssignAt(n: Node, q: Path)
    requires WellFormed(n) && OutermostAssign(n, q)
    ensures ValidPath(n, q) && At(n, q).kind.Assign? && WellFormed(At(n, q))
    decreases |q|
  {
    if q != [] {
      OutermostAssignAt(n.kids[q[0]], q[1..]);
    }
  }

  // ----- lists of positions -----

  /** The positions ps in a subtree, as positions in the node whose i-th child the subtree is. */
  function Under(i: nat, ps: seq<Path>): (r: seq<Path>)
    ensures |r| == |ps|
    ensures forall k :: 0 <= k < |ps| ==> r[k] == [i] + ps[k]
  {
    seq(|ps|, k requires 0 <= k < |ps| => [i] + ps[k])
  }

  /** No position is listed twice. */
  predicate Distinct(ps: seq<Path>) {
    forall j, k :: 0 <= j < k < |ps| ==> ps[j] != ps[k]
  }

  /** Every position listed lies below one of the first i children. */
  predicate Below(ps: seq<Path>, i: nat) {
    forall k :: 0 <= k < |ps| ==> ps[k] != [] && ps[k][0] < i
  }

  lemma UnderHas(i: nat, ps: seq<Path>, q: Path)
    ensures q in Under(i, ps) <==> q != [] && q[0] == i && q[1..] in ps
  {
    if q in Under(i, ps) {
      var k :| 0 <= k < |ps| && Under(i, ps)[k] == q;
      assert q[1..] == ps[k];
    }
    if q != [] && q[0] == i && q[1..] in ps {
      var k :| 0 <= k < |ps| && ps[k] == q[1..];
      assert Under(i, ps)[k] == [i] + q[1..] == q;
    }
  }

  /** Positions below child i, added after distinct positions below earlier children, keep the list distinct. */
  lemma DistinctUnder(front: seq<Path>, i: nat, ps: seq<Path>)
    requires Distinct(front) && Below(front, i) && Distinct(ps)
    ensures Distinct(front + Under(i, ps)) && Below(front + Under(i, ps), i + 1)
  {
    var all := front + Under(i, ps);
    forall j, k | 0 <= j < k < |all|
      ensures all[j] != all[k]
    {
      if k >= |front| {
        assert all[k] == [i] + ps[k - |front|];
        if j >= |front| {
          assert all[j] == [i] + ps[j - |front|];
          assert all[j][1..] == ps[j - |front|] && all[k][1..] == ps[k - |front|];
        } else {
          assert all[j] == front[j] && all[j][0] < i;
        }
      }
    }
    forall k | 0 <= k < |all|
      ensures all[k] != [] && all[k][0] < i + 1
    {
      if k >= |front| {
        assert all[k] == [i] + ps[k - |front|];
      } else {
        assert all[k] == front[k];
      }
    }
  }

  /** A list whose entries are all x holds x once per entry. */
  lemma {:induction false} AllSameCount(ps: seq<Path>, x: Path)
    requires forall k :: 0 <= k < |ps| ==> ps[k] == x
    ensures multiset(ps)[x] == |ps|
    decreases |ps|
  {
    if ps != [] {
      assert ps == ps[..|ps| - 1] + [x];
      AllSameCount(ps[..|ps| - 1], x);
    }
  }

  // ----- what the analysis code reads off a node, failing as Python does -----

  /** `ast.copy_location(created, source)`: created takes source's location when old has one. */
  function CopyLoc(created: Node, source: Node): (r: Node)
    ensures r.kind == created.kind && r.kids == created.kids
    ensures source.loc.Some? ==> r.loc == source.loc
    ensures source.loc.None? ==> r == created
  {
    if source.loc.Some? then created.(loc := source.loc) else created
  }

  /** `n.id`: only a Name has one. */
  function IdOf(n: Node): (r: Result<string>)
    ensures r.Ok? <==> n.kind.Name?
    ensures r.Ok? ==> IsNamed(n, r.value)
  {
    if n.kind.Name? then Ok(n.kind.id) else Err(AttributeError)
  }

  /** `n.args`: only a Call has one. */
  function ArgsOf(n: Node): (r: Result<seq<Node>>)
    requires Shaped(n)
    ensures r.Ok? <==> n.kind.Call?
    ensures r.Ok? ==> |r.value| == n.kind.nargs
  {
    if n.kind.Call? then Ok(CallArgs(n)) else Err(AttributeError)
  }

  /** `value.elts`: only a Tuple or a List has elements. */
  function EltsOf(v: Node): (r: Result<seq<Node>>)
    ensures r.Ok? <==> v.kind.Tuple? || v.kind.List?
    ensures r.Ok? ==> r.value == v.kids
    ensures r.Err? ==> r.error == AttributeError
  {
    if v.kind.Tuple? || v.kind.List? then Ok(v.kids) else Err(AttributeError)
  }

  /** `s[i]` on a Python list. */
  function Item(s: seq<Node>, i: nat): (r: Result<Node>)
    ensures r.Ok? <==> i < |s|
    ensures r.Ok? ==> r.value == s[i]
    ensures r.Err? ==> r.error == IndexError
  {
    if i < |s| then Ok(s[i]) else Err(IndexError)
  }

  predicate NameAmong(id: string, targets: seq<Node>) {
    exists k :: 0 <= k < |targets| && IsNamed(targets[k], id)
  }

  predicate AllNames(targets: seq<Node>) {
    forall k :: 0 <= k < |targets| ==> targets[k].kind.Name?
  }

  /**
   * `id in (t.id for t in targets)`: the generator reads `.id` of each target
   * in turn and stops at the first match, so a target that is not a Name,
   * reached before a match, raises AttributeError.
   */
  function IdIn(id: string, targets: seq<Node>): (r: Result<bool>)
    ensures r.Ok? ==> (r.value <==> NameAmong(id, targets))
    ensures AllNames(targets) ==> r.Ok?
    ensures r.Err? ==> r.error == AttributeError && !AllNames(targets)
  {
    if targets == [] then Ok(false)
    else if !targets[0].kind.Name? then Err(AttributeError)
    else if targets[0].kind.id == id then Ok(true)
    else
      var rest := IdIn(id, targets[1..]);
      assert forall k :: 1 <= k < |targets| ==> targets[k] == targets[1..][k - 1];
      rest
  }
}
