/**
 * Lexical scopes and name resolution (pycc/asttools/scope.py).
 *
 * The analysed tree carries the `parent` attributes that
 * add_parent_references gives it (every parsed tree goes through that pass
 * before it is analysed), so climbing `.parent` from a node of the tree
 * visits exactly the prefixes of its position.
 */
module Scope {
  import opened Wrappers
  import opened Syntax
  import opened References

  datatype ScopeType = ModuleScope | FunctionScope | ClassScope

  datatype NameSource = Defined | Adopted | Imported | Builtin

  /** The tree's parent attributes are the ones add_parent_references sets. */
  ghost predicate Augmented(root: Node, parent: Links) {
    forall q :: ValidPath(root, q) ==> q in parent && parent[q] == ParentOf(q)
  }

  /** Scope.is_scope */
  predicate IsScope(n: Node) {
    n.kind.Module? || n.kind.FunctionDef? || n.kind.ClassDef?
  }

  /** There is a scope node at position q. */
  predicate ScopeAt(root: Node, q: Path) {
    ValidPath(root, q) && IsScope(At(root, q))
  }

  /** Scope.scope_type: the type of a scope node; any other node raises ValueError. */
  function ScopeTypeOf(n: Node): (r: Result<ScopeType>)
    ensures r.Ok? <==> IsScope(n)
    ensures r.Err? ==> r.error == ValueError
  {
    if !IsScope(n) then Err(ValueError)
    else if n.kind.Module? then Ok(ModuleScope)
    else if n.kind.FunctionDef? then Ok(FunctionScope)
    else Ok(ClassScope)
  }

  /** The three scope kinds get three different scope types. */
  lemma ScopeTypesDistinct(a: Node, b: Node)
    requires IsScope(a) && IsScope(b)
    ensures ScopeTypeOf(a) == ScopeTypeOf(b) <==>
              (a.kind.Module? && b.kind.Module?) || (a.kind.FunctionDef? && b.kind.FunctionDef?) || (a.kind.ClassDef? && b.kind.ClassDef?)
  {
  }

  /**
   * The scope reached by climbing from x (x itself included): the first
   * scope node on the way up, or ValueError when the chain runs out.
   */
  function ScopeFrom(root: Node, x: Option<Path>): (r: Result<Path>)
    requires x.Some? ==> ValidPath(root, x.value)
    ensures r.Ok? ==> x.Some? && ScopeAt(root, r.value) && IsPrefix(r.value, x.value)
    ensures r.Err? ==> r.error == ValueError
    decreases if x.Some? then |x.value| + 1 else 0
  {
    match x
    case None => Err(ValueError)
    case Some(y) =>
      if IsScope(At(root, y)) then Ok(y)
      else if y == [] then Err(ValueError)
      else
        ValidPrefix(root, y, |y| - 1);
        var r := ScopeFrom(root, ParentOf(y));
        assert r.Ok? ==> IsPrefix(r.value, y);
        r
  }

  /** ScopeFrom returns the FIRST scope on the way up; it fails only when there is none. */
  lemma {:induction false} ScopeFromFirst(root: Node, y: Path)
    requires ValidPath(root, y)
    ensures ScopeFrom(root, Some(y)).Ok? ==> forall k :: |ScopeFrom(root, Some(y)).value| < k <= |y| ==> !ScopeAt(root, y[..k])
    ensures ScopeFrom(root, Some(y)).Err? <==> forall k :: 0 <= k <= |y| ==> !ScopeAt(root, y[..k])
    decreases |y|
  {
    assert y[..|y|] == y;
    if !IsScope(At(root, y)) && y != [] {
      ValidPrefix(root, y, |y| - 1);
      ScopeFromFirst(root, Up(y));
      assert forall k :: 0 <= k <= |Up(y)| ==> Up(y)[..k] == y[..k];
    }
  }

  /** The `parent` attribute of a name node, if any, gives the start of the climb. */
  function StartOf(attr: Option<Option<Path>>): Option<Path> {
    if attr.Some? then attr.value else None
  }

  /**
   * Scope.nearest_scope(node), for a node whose `parent` attribute is `attr`
   * (absent, None, or a tree node): climb through `.parent` to the first scope.
   */
  method NearestScope(root: Node, parent: Links, attr: Option<Option<Path>>) returns (r: Result<Path>)
    requires Augmented(root, parent)
    requires StartOf(attr).Some? ==> ValidPath(root, StartOf(attr).value)
    ensures r == ScopeFrom(root, StartOf(attr))
  {
    var node := StartOf(attr);
    while node.Some?
      invariant node.Some? ==> ValidPath(root, node.value)
      invariant ScopeFrom(root, node) == ScopeFrom(root, StartOf(attr))
      decreases if node.Some? then |node.value| + 1 else 0
    {
      if IsScope(At(root, node.value)) {
        return Ok(node.value);
      }
      if node.value != [] {
        ValidPrefix(root, node.value, |node.value| - 1);
      }
      node := parent[node.value];
    }
    return Err(ValueError);
  }

  /** nearest_scope of the tree node at q (whose parent attribute is ParentOf(q)). */
  function NearestScopeOf(root: Node, q: Path): (r: Result<Path>)
    requires ValidPath(root, q)
    ensures r.Ok? ==> ScopeAt(root, r.value) && IsStrictPrefix(r.value, q)
    ensures r.Ok? ==> forall k :: |r.value| < k < |q| ==> !ScopeAt(root, q[..k])
    ensures r.Err? <==> forall k :: 0 <= k < |q| ==> !ScopeAt(root, q[..k])
  {
    if q == [] then Err(ValueError)
    else
      ValidPrefix(root, q, |q| - 1);
      ScopeFromFirst(root, Up(q));
      assert forall k :: 0 <= k <= |Up(q)| ==> Up(q)[..k] == q[..k];
      ScopeFrom(root, ParentOf(q))
  }

  /** A Scope object: its beginning node and that node's scope type. */
  datatype ScopeObj = ScopeObj(node: Path, stype: ScopeType)

  /** Scope(node): the node itself when it is a scope, else its nearest scope. */
  function MakeScope(root: Node, q: Path): (r: Result<ScopeObj>)
    requires ValidPath(root, q)
    ensures r.Ok? <==> ScopeFrom(root, Some(q)).Ok?
    ensures r.Ok? ==> r.value.node == ScopeFrom(root, Some(q)).value
    ensures r.Ok? ==> ScopeTypeOf(At(root, r.value.node)) == Ok(r.value.stype)
  {
    var node := if IsScope(At(root, q)) then Ok(q) else NearestScopeOf(root, q);
    match node
    case Err(e) => Err(e)
    case Ok(n) =>
      match ScopeTypeOf(At(root, n))
      case Err(e) => Err(e)
      case Ok(t) => Ok(ScopeObj(n, t))
  }

  /** What a Scope is compared with. */
  datatype ScopeOperand = ScopeValue(scope: ScopeObj) | AstValue(at: Path) | PlainValue

  /**
   * Scope.__eq__: Scopes compare by the identity of their nodes. Against an
   * AST node the code reads `self.declaration`, which a Scope does not have
   * (AttributeError); anything else raises TypeError.
   */
  function ScopeEq(s: ScopeObj, other: ScopeOperand): (r: Result<bool>)
    ensures r.Ok? <==> other.ScopeValue?
    ensures other.AstValue? ==> r == Err(AttributeError)
    ensures other.PlainValue? ==> r == Err(TypeError)
  {
    match other
    case ScopeValue(o) => Ok(s.node == o.node)
    case AstValue(_) => Err(AttributeError)
    case PlainValue => Err(TypeError)
  }

  /** Scope.__hash__ hashes the node: Scopes that compare equal hash alike. */
  function ScopeHashKey(s: ScopeObj): Path {
    s.node
  }

  /** Equal scopes have equal hash keys, and two Scopes of one tree node are equal. */
  lemma ScopeEqHash(root: Node, s: ScopeObj, o: ScopeObj)
    requires ScopeEq(s, ScopeValue(o)) == Ok(true)
    ensures ScopeHashKey(s) == ScopeHashKey(o)
  {
  }

  lemma {:induction false} SameNodeSameScope(root: Node, a: Path, b: Path)
    requires ValidPath(root, a) && ValidPath(root, b)
    requires MakeScope(root, a).Ok? && MakeScope(root, b).Ok?
    requires ScopeFrom(root, Some(a)) == ScopeFrom(root, Some(b))
    ensures ScopeEq(MakeScope(root, a).value, ScopeValue(MakeScope(root, b).value)) == Ok(true)
  {
  }

  // ----- find_declaration -----

  /** An alias of an import binds `id` under its asname, or under its name when it has none. */
  predicate AliasBinds(a: Node, id: string) {
    match a.kind
    case Alias(name, asname) => (asname.Some? && asname.value == id) || (asname.None? && name == id)
    case _ => false
  }

  /** The positional parameters bind `id`; a parameter that is not a Name has no `.id` (AttributeError). */
  function ParamsBind(params: seq<Node>, id: string): (r: Result<bool>)
    ensures r == Ok(true) ==> exists i :: 0 <= i < |params| && IsNamed(params[i], id)
    ensures r == Ok(false) ==> forall i :: 0 <= i < |params| ==> IsName(params[i]) && !IsNamed(params[i], id)
    ensures r.Err? ==> r.error == AttributeError && exists i :: 0 <= i < |params| && !IsName(params[i])
  {
    if params == [] then Ok(false)
    else if !IsName(params[0]) then Err(AttributeError)
    else if params[0].kind.id == id then Ok(true)
    else
      var r := ParamsBind(params[1..], id);
      assert forall i :: 0 < i < |params| ==> params[i] == params[1..][i - 1];
      r
  }

  /**
   * The test find_declaration applies to one child of a level: does this
   * statement (or arguments node) bind `id`?
   */
  function Binds(c: Node, id: string): (r: Result<bool>)
    requires Shaped(c)
    ensures r.Err? ==> c.kind.Arguments?
  {
    match c.kind
    case Import =>
      Ok(exists i :: 0 <= i < |c.kids| && AliasBinds(c.kids[i], id))
    case ImportFrom(_, _) =>
      Ok(exists i :: 0 <= i < |c.kids| && AliasBinds(c.kids[i], id))
    case Assign =>
      var target := c.kids[0];
      Ok(IsNamed(target, id) || (target.kind.Tuple? && exists i :: 0 <= i < |target.kids| && IsNamed(target.kids[i], id)))
    case FunctionDef(name) => Ok(name == id)
    case ClassDef(name) => Ok(name == id)
    case Arguments(_, vararg, kwarg) =>
      if vararg == Some(id) || kwarg == Some(id) then Ok(true) else ParamsBind(Params(c), id)
    case _ => Ok(false)
  }

  /** The children of a level, scanned in order from index i: the first that binds `id`. */
  function FirstBinding(kids: seq<Node>, id: string, i: nat): (r: Result<Option<nat>>)
    requires i <= |kids| && forall k :: 0 <= k < |kids| ==> Shaped(kids[k])
    ensures r.Ok? && r.value.Some? ==> i <= r.value.value < |kids| && Binds(kids[r.value.value], id) == Ok(true)
    ensures r.Ok? && r.value.Some? ==> forall k :: i <= k < r.value.value ==> Binds(kids[k], id) == Ok(false)
    ensures r == Ok(None) ==> forall k :: i <= k < |kids| ==> Binds(kids[k], id) == Ok(false)
    ensures r.Err? ==> exists j :: i <= j < |kids| && Binds(kids[j], id) == Err(r.error) &&
                                   forall k :: i <= k < j ==> Binds(kids[k], id) == Ok(false)
    decreases |kids| - i
  {
    if i == |kids| then Ok(None)
    else
      match Binds(kids[i], id)
      case Err(e) => Err(e)
      case Ok(true) => Ok(Some(i))
      case Ok(false) => FirstBinding(kids, id, i + 1)
  }

  /**
   * The search find_declaration makes from level s outward: the first
   * binding child of s, else the search from s's parent; None once the
   * root (whose parent is None) has no binding child.
   */
  function DeclarationFrom(root: Node, id: string, s: Path): (r: Result<Option<Path>>)
    requires WellFormed(root) && ValidPath(root, s)
    ensures r.Ok? && r.value.Some? ==> |r.value.value| > 0 && IsPrefix(Up(r.value.value), s) && ValidPath(root, r.value.value)
    decreases |s|
  {
    WellFormedAt(root, s);
    match FirstBinding(At(root, s).kids, id, 0)
    case Err(e) => Err(e)
    case Ok(Some(j)) =>
      AtSnoc(root, s, j);
      assert Up(s + [j]) == s;
      Ok(Some(s + [j]))
    case Ok(None) =>
      if s == [] then Ok(None)
      else
        ValidPrefix(root, s, |s| - 1);
        var r := DeclarationFrom(root, id, Up(s));
        assert r.Ok? && r.value.Some? ==> Up(s)[..|Up(r.value.value)|] == s[..|Up(r.value.value)|];
        r
  }

  /** No child of the node at a binds `id`: the search passes through that level. */
  ghost predicate LevelClear(root: Node, id: string, a: Path)
    requires WellFormed(root)
  {
    ValidPath(root, a) && (WellFormedAt(root, a); FirstBinding(At(root, a).kids, id, 0) == Ok(None))
  }

  /** The node at d is the first child of its parent that binds `id`. */
  ghost predicate FirstAt(root: Node, id: string, d: Path)
    requires WellFormed(root)
  {
    && d != [] && ValidPath(root, d)
    && (ValidPrefix(root, d, |d| - 1); WellFormedAt(root, Up(d));
        FirstBinding(At(root, Up(d)).kids, id, 0) == Ok(Some(d[|d| - 1])))
  }

  /**
   * The declaration found from level s is the first binding child of the
   * innermost level that has one: every level between s and it is clear,
   * so inner bindings shadow outer ones; None means every level up to the
   * root is clear.
   */
  lemma {:induction false} DeclarationShadows(root: Node, id: string, s: Path)
    requires WellFormed(root) && ValidPath(root, s)
    ensures DeclarationFrom(root, id, s).Ok? && DeclarationFrom(root, id, s).value.Some? ==>
              var d := DeclarationFrom(root, id, s).value.value;
              && FirstAt(root, id, d)
              && forall k :: |Up(d)| < k <= |s| ==> LevelClear(root, id, s[..k])
    ensures DeclarationFrom(root, id, s) == Ok(None) ==> forall k :: 0 <= k <= |s| ==> LevelClear(root, id, s[..k])
    decreases |s|
  {
    WellFormedAt(root, s);
    assert s[..|s|] == s;
    var r := DeclarationFrom(root, id, s);
    match FirstBinding(At(root, s).kids, id, 0)
    case Err(_) =>
    case Ok(Some(j)) =>
      assert r == Ok(Some(s + [j]));
      assert Up(s + [j]) == s;
    case Ok(None) =>
      if s != [] {
        ValidPrefix(root, s, |s| - 1);
        DeclarationShadows(root, id, Up(s));
        assert LevelClear(root, id, s);
        if r.Ok? && r.value.Some? {
          ClearOutward(root, id, s, |Up(r.value.value)| + 1);
        } else if r == Ok(None) {
          ClearOutward(root, id, s, 0);
        }
      }
  }

  /** Levels clear from lo up to the parent of s, and s itself clear: levels clear from lo up to s. */
  lemma ClearOutward(root: Node, id: string, s: Path, lo: nat)
    requires WellFormed(root) && ValidPath(root, s) && s != [] && lo <= |s|
    requires LevelClear(root, id, s)
    requires forall k :: lo <= k <= |Up(s)| ==> LevelClear(root, id, Up(s)[..k])
    ensures forall k :: lo <= k <= |s| ==> LevelClear(root, id, s[..k])
  {
    assert s[..|s|] == s;
    assert forall k :: 0 <= k <= |Up(s)| ==> Up(s)[..k] == s[..k];
  }

  /** Any ast.Name the code resolves: its identifier and its `parent` attribute. */
  datatype NameRef = NameRef(id: string, up: Option<Option<Path>>)

  /** The name node's parent attribute points into the tree. */
  predicate Anchored(root: Node, name: NameRef) {
    StartOf(name.up).Some? ==> ValidPath(root, StartOf(name.up).value)
  }

  /** find_declaration(name, start): the search from `start`, or from nearest_scope(name) when no start is given. */
  function DeclarationOf(root: Node, name: NameRef, start: Option<Path>): (r: Result<Option<Path>>)
    requires WellFormed(root) && Anchored(root, name)
    requires start.Some? ==> ValidPath(root, start.value)
    ensures start.Some? ==> r == DeclarationFrom(root, name.id, start.value)
    ensures start.None? && ScopeFrom(root, StartOf(name.up)).Err? ==> r == Err(ValueError)
  {
    match start
    case Some(s) => DeclarationFrom(root, name.id, s)
    case None =>
      match ScopeFrom(root, StartOf(name.up))
      case Err(e) => Err(e)
      case Ok(s) => DeclarationFrom(root, name.id, s)
  }

  /** The scan of one level's children in find_declaration, stopping at the first that binds `id`. */
  method ScanLevel(children: seq<Node>, id: string) returns (r: Result<Option<nat>>)
    requires forall k :: 0 <= k < |children| ==> Shaped(children[k])
    ensures r == FirstBinding(children, id, 0)
  {
    var i := 0;
    while i < |children|
      invariant i <= |children|
      invariant FirstBinding(children, id, 0) == FirstBinding(children, id, i)
    {
      var b := Binds(children[i], id);
      if b.Err? {
        return Err(b.error);
      }
      if b.value {
        return Ok(Some(i));
      }
      i := i + 1;
    }
    return Ok(None);
  }

  /**
   * Name.find_declaration: a work-list holding one level at a time; each
   * level's children are scanned in order, then the search moves to the
   * level's parent, and ends with None after the level whose parent is None.
   */
  method FindDeclaration(root: Node, parent: Links, name: NameRef, start: Option<Path>) returns (r: Result<Option<Path>>)
    requires WellFormed(root) && Augmented(root, parent) && Anchored(root, name)
    requires start.Some? ==> ValidPath(root, start.value)
    ensures r == DeclarationOf(root, name, start)
  {
    var first: Path;
    if start.Some? {
      first := start.value;
    } else {
      var s := NearestScope(root, parent, name.up);
      if s.Err? {
        return Err(s.error);
      }
      first := s.value;
    }
    var scopes := [first];
    while |scopes| > 0
      invariant |scopes| == 1 && ValidPath(root, scopes[0])
      invariant DeclarationFrom(root, name.id, scopes[0]) == DeclarationOf(root, name, start)
      decreases |scopes[0]|
    {
      var scope := scopes[|scopes| - 1];
      scopes := scopes[..|scopes| - 1];
      WellFormedAt(root, scope);
      var found := ScanLevel(At(root, scope).kids, name.id);
      if found.Err? {
        return Err(found.error);
      }
      if found.value.Some? {
        AtSnoc(root, scope, found.value.value);
        return Ok(Some(scope + [found.value.value]));
      }
      if parent[scope] == None {
        return Ok(None);
      }
      ValidPrefix(root, scope, |scope| - 1);
      scopes := scopes + [parent[scope].value];
    }
  }

  // ----- declaration_source -----

  /** `declaration or find_declaration(name)`: the given declaration, else the one found from nearest_scope(name). */
  function Declared(root: Node, name: NameRef, decl: Option<Path>): (r: Result<Option<Path>>)
    requires WellFormed(root) && Anchored(root, name)
    requires decl.Some? ==> ValidPath(root, decl.value)
    ensures r.Ok? && r.value.Some? ==> ValidPath(root, r.value.value)
  {
    if decl.Some? then Ok(decl) else DeclarationOf(root, name, None)
  }

  predicate IsImport(n: Node) {
    n.kind.Import? || n.kind.ImportFrom?
  }

  /**
   * Name.declaration_source: Builtin without a declaration, Imported for an
   * import, Defined when the name and its declaration have the same nearest
   * scope, Adopted otherwise.
   */
  function DeclarationSource(root: Node, name: NameRef, decl: Option<Path>): (r: Result<NameSource>)
    requires WellFormed(root) && Anchored(root, name)
    requires decl.Some? ==> ValidPath(root, decl.value)
    ensures r == Ok(Builtin) <==> Declared(root, name, decl) == Ok(None)
    ensures r == Ok(Imported) <==> Declared(root, name, decl).Ok? && Declared(root, name, decl).value.Some? &&
                                   IsImport(At(root, Declared(root, name, decl).value.value))
    ensures r == Ok(Defined) || r == Ok(Adopted) ==>
              && Declared(root, name, decl).Ok? && Declared(root, name, decl).value.Some?
              && !IsImport(At(root, Declared(root, name, decl).value.value))
              && ScopeFrom(root, StartOf(name.up)).Ok?
              && NearestScopeOf(root, Declared(root, name, decl).value.value).Ok?
              && (r == Ok(Defined) <==> ScopeFrom(root, StartOf(name.up)) == NearestScopeOf(root, Declared(root, name, decl).value.value))
  {
    match Declared(root, name, decl)
    case Err(e) => Err(e)
    case Ok(None) => Ok(Builtin)
    case Ok(Some(d)) =>
      if IsImport(At(root, d)) then Ok(Imported)
      else
        match ScopeFrom(root, StartOf(name.up))
        case Err(e) => Err(e)
        case Ok(mine) =>
          match NearestScopeOf(root, d)
          case Err(e) => Err(e)
          case Ok(theirs) => if mine == theirs then Ok(Defined) else Ok(Adopted)
  }

  /** A name declared (not imported) by a child of its own nearest scope is Defined there. */
  lemma {:induction false} DeclaredLocallyIsDefined(root: Node, name: NameRef, s: Path, d: Path)
    requires WellFormed(root) && Anchored(root, name)
    requires ScopeFrom(root, StartOf(name.up)) == Ok(s)
    requires DeclarationFrom(root, name.id, s) == Ok(Some(d)) && Up(d) == s
    requires !IsImport(At(root, d))
    ensures DeclarationSource(root, name, None) == Ok(Defined)
  {
    assert ParentOf(d) == Some(s);
    assert NearestScopeOf(root, d) == Ok(s);
  }

  /** A name declared (not imported) at a level outside its nearest scope is never Defined. */
  lemma {:induction false} DeclaredOutsideIsAdopted(root: Node, name: NameRef, s: Path, d: Path)
    requires WellFormed(root) && Anchored(root, name)
    requires ScopeFrom(root, StartOf(name.up)) == Ok(s)
    requires DeclarationFrom(root, name.id, s) == Ok(Some(d)) && |Up(d)| < |s|
    requires !IsImport(At(root, d))
    ensures DeclarationSource(root, name, None) != Ok(Defined)
    ensures NearestScopeOf(root, d).Ok? ==> DeclarationSource(root, name, None) == Ok(Adopted)
  {
    if NearestScopeOf(root, d).Ok? {
      assert |NearestScopeOf(root, d).value| < |s|;
    }
  }

  // ----- Name -----

  /** A Name object: token, the scope node it was resolved in, its declaration and source. */
  datatype NameInfo = NameInfo(token: string, scope: Path, declaration: Option<Path>, source: NameSource)

  /**
   * Name(name, scope): the scope is the given one or nearest_scope(name); the
   * declaration is searched from that scope, and the source classified.
   */
  function MakeName(root: Node, name: NameRef, scope: Option<Path>): (r: Result<NameInfo>)
    requires WellFormed(root) && Anchored(root, name)
    requires scope.Some? ==> ValidPath(root, scope.value)
    ensures r.Ok? ==> r.value.token == name.id && ValidPath(root, r.value.scope)
    ensures r.Ok? && scope.Some? ==> r.value.scope == scope.value
    ensures r.Ok? && scope.None? ==> Ok(r.value.scope) == ScopeFrom(root, StartOf(name.up))
    ensures r.Ok? ==> Ok(r.value.declaration) == DeclarationFrom(root, name.id, r.value.scope)
    ensures r.Ok? ==> Ok(r.value.source) == DeclarationSource(root, name, r.value.declaration)
  {
    var sc := if scope.Some? then Ok(scope.value) else ScopeFrom(root, StartOf(name.up));
    match sc
    case Err(e) => Err(e)
    case Ok(s) =>
      match DeclarationOf(root, name, Some(s))
      case Err(e) => Err(e)
      case Ok(decl) =>
        match DeclarationSource(root, name, decl)
        case Err(e) => Err(e)
        case Ok(source) => Ok(NameInfo(name.id, s, decl, source))
  }

  /** What a Name is compared with. */
  datatype NameOperand =
    | AstName(ref: NameRef)      // an ast.Name node: wrapped as a Name first
    | NameValue(name: NameInfo)  // a Name object
    | AstNode(at: Path)          // any other AST node of the tree
    | Text(text: string)         // a string
    | ScopeObject(scope: ScopeObj)  // a Scope: str's == gives way to Scope.__eq__
    | NonAst                     // a value a string compares unequal to: a number, None, a tuple

  /**
   * Name vs Name: equal tokens and equal Scopes (tokens are compared first).
   * With equal tokens, building either Scope can raise; otherwise the answer
   * is whether both scope positions lead up to the same scope node.
   */
  function SameName(root: Node, a: NameInfo, b: NameInfo): (r: Result<bool>)
    requires ValidPath(root, a.scope) && ValidPath(root, b.scope)
    ensures a.token != b.token ==> r == Ok(false)
    ensures a.token == b.token ==>
      (r.Err? <==> ScopeFrom(root, Some(a.scope)).Err? || ScopeFrom(root, Some(b.scope)).Err?)
    ensures a.token == b.token && ScopeFrom(root, Some(a.scope)).Ok? && ScopeFrom(root, Some(b.scope)).Ok? ==>
      r == Ok(ScopeFrom(root, Some(a.scope)).value == ScopeFrom(root, Some(b.scope)).value)
    ensures r.Err? ==> r.error == ValueError
  {
    if a.token != b.token then Ok(false)
    else
      match MakeScope(root, a.scope)
      case Err(e) => Err(e)
      case Ok(sa) =>
        match MakeScope(root, b.scope)
        case Err(e) => Err(e)
        case Ok(sb) => ScopeEq(sa, ScopeValue(sb))
  }

  /** Name.__eq__ */
  function NameEq(root: Node, self: NameInfo, other: NameOperand): (r: Result<bool>)
    requires WellFormed(root) && ValidPath(root, self.scope)
    requires other.AstName? ==> Anchored(root, other.ref)
    requires other.NameValue? ==> ValidPath(root, other.name.scope)
    ensures other.NameValue? ==> r == SameName(root, self, other.name)
    ensures other.AstName? && MakeName(root, other.ref, None).Err? ==> r == Err(MakeName(root, other.ref, None).error)
    ensures other.AstName? && MakeName(root, other.ref, None).Ok? ==> r == SameName(root, self, MakeName(root, other.ref, None).value)
    ensures other.AstNode? ==> r == Ok(self.declaration == Some(other.at))
    ensures other.Text? ==> r == Ok(self.token == other.text)
    ensures other.ScopeObject? ==> r == Err(TypeError)
    ensures other.NonAst? ==> r == Ok(false)
  {
    match other
    case AstName(ref) =>
      (match MakeName(root, ref, None)
       case Err(e) => Err(e)
       case Ok(o) => SameName(root, self, o))
    case NameValue(o) => SameName(root, self, o)
    case AstNode(p) => Ok(self.declaration == Some(p))
    case Text(t) => Ok(self.token == t)
    case ScopeObject(o) => ScopeEq(o, PlainValue)
    case NonAst => Ok(false)
  }

  /** Name.__hash__ hashes the token. */
  function NameHashKey(n: NameInfo): string {
    n.token
  }

  /** A Name equal to a Name, an ast.Name or a string has that value's hash key. */
  lemma NameEqHash(root: Node, self: NameInfo, other: NameOperand)
    requires WellFormed(root) && ValidPath(root, self.scope)
    requires other.AstName? ==> Anchored(root, other.ref)
    requires other.NameValue? ==> ValidPath(root, other.name.scope)
    requires NameEq(root, self, other) == Ok(true)
    ensures other.NameValue? ==> NameHashKey(self) == NameHashKey(other.name)
    ensures other.AstName? ==> NameHashKey(self) == other.ref.id
    ensures other.Text? ==> NameHashKey(self) == other.text
  {
    if other.AstName? {
      var o := MakeName(root, other.ref, None);
      assert o.Ok? && o.value.token == other.ref.id;
    }
  }

  /** A Name whose scope node is a scope equals itself. */
  lemma NameEqReflexive(root: Node, n: NameInfo)
    requires WellFormed(root) && ScopeAt(root, n.scope)
    ensures NameEq(root, n, NameValue(n)) == Ok(true)
  {
  }

  /**
   * Two Names resolved in scope nodes are equal exactly when their tokens are
   * equal and their scope nodes are the same node: equal tokens in different
   * scopes compare unequal.
   */
  lemma NameEqScopes(root: Node, a: NameInfo, b: NameInfo)
    requires WellFormed(root) && ScopeAt(root, a.scope) && ScopeAt(root, b.scope)
    ensures NameEq(root, a, NameValue(b)) == Ok(a.token == b.token && a.scope == b.scope)
  {
  }

  /**
   * An ast.Name is wrapped with its nearest scope first: a Name equals it
   * exactly when the tokens agree and that scope is the Name's own.
   */
  lemma NameEqAstName(root: Node, a: NameInfo, ref: NameRef)
    requires WellFormed(root) && ScopeAt(root, a.scope) && Anchored(root, ref)
    requires MakeName(root, ref, None).Ok?
    ensures NameEq(root, a, AstName(ref)) == Ok(a.token == ref.id && a.scope == ScopeFrom(root, StartOf(ref.up)).value)
  {
    var o := MakeName(root, ref, None).value;
    assert ScopeAt(root, o.scope);
  }

  // ----- NameNodeGenerator -----

  /**
   * One item NameNodeGenerator yields: a Name node of the tree, or a Name
   * synthesised as copy_location(ast.Name(id, Store), node at `from`), which
   * carries the location and the parent/previous/next attributes of that node.
   */
  datatype Yielded = Real(at: Path) | Synth(id: string, from: Path)

  /** The Name synthesised for an optional vararg or kwarg. */
  function OptionalName(v: Option<string>, q: Path): seq<Yielded> {
    if v.Some? then [Synth(v.value, q)] else []
  }

  /** The Names synthesised, in order, for the names of a `global` statement. */
  function GlobalNames(names: seq<string>, q: Path): (r: seq<Yielded>)
    ensures |r| == |names|
    ensures forall k :: 0 <= k < |names| ==> r[k] == Synth(names[k], q)
  {
    if names == [] then [] else GlobalNames(names[..|names| - 1], q) + [Synth(names[|names| - 1], q)]
  }

  /** The generator descends into a child unless it is a Name, alias, definition or `global`. */
  predicate Descends(c: Node) {
    !(c.kind.Name? || c.kind.Alias? || c.kind.FunctionDef? || c.kind.ClassDef? || c.kind.Global?)
  }

  /** What the generator yields, in order, for the child c at q itself. */
  function Own(c: Node, q: Path): seq<Yielded> {
    match c.kind
    case Name(_, _) => [Real(q)]
    case Alias(name, asname) => [Synth(if asname.Some? then asname.value else name, q)]
    case FunctionDef(name) => [Synth(name, q)]
    case ClassDef(name) => [Synth(name, q)]
    case Global(names) => GlobalNames(names, q)
    case Arguments(_, vararg, kwarg) => OptionalName(vararg, q) + OptionalName(kwarg, q)
    case _ => []
  }

  /** What the generator yields for the child c at q, including what it yields below c. */
  function ChildYield(c: Node, q: Path): multiset<Yielded>
    decreases c, 2, 0
  {
    multiset(Own(c, q)) + if Descends(c) then Visible(c, q) else multiset{}
  }

  /** Everything the generator yields below the node n at position `at`. */
  function Visible(n: Node, at: Path): multiset<Yielded>
    decreases n, 1, 0
  {
    YieldKids(n, at, |n.kids|)
  }

  /** What the first i children of n contribute. */
  function YieldKids(n: Node, at: Path, i: nat): multiset<Yielded>
    requires i <= |n.kids|
    decreases n, 0, i
  {
    if i == 0 then multiset{} else YieldKids(n, at, i - 1) + ChildYield(n.kids[i - 1], at + [i - 1])
  }

  /** What the nodes still on the work-list will yield. */
  function Stacked(root: Node, nodes: seq<Path>): multiset<Yielded>
    requires forall k :: 0 <= k < |nodes| ==> ValidPath(root, nodes[k])
  {
    if nodes == [] then multiset{}
    else Stacked(root, nodes[..|nodes| - 1]) + Visible(At(root, nodes[|nodes| - 1]), nodes[|nodes| - 1])
  }

  lemma StackedPush(root: Node, nodes: seq<Path>, q: Path)
    requires forall k :: 0 <= k < |nodes| ==> ValidPath(root, nodes[k])
    requires ValidPath(root, q)
    ensures Stacked(root, nodes + [q]) == Stacked(root, nodes) + Visible(At(root, q), q)
  {
    assert (nodes + [q])[..|nodes|] == nodes;
  }

  /** The `for n in child.names` loop for a `global` statement. */
  method YieldGlobal(out0: seq<Yielded>, names: seq<string>, q: Path) returns (out: seq<Yielded>)
    ensures out == out0 + GlobalNames(names, q)
  {
    out := out0;
    for k := 0 to |names|
      invariant out == out0 + GlobalNames(names[..k], q)
    {
      assert names[..k + 1][..k] == names[..k];
      out := out + [Synth(names[k], q)];
    }
    assert names[..|names|] == names;
  }

  lemma Reassociate(a: multiset<Yielded>, b: multiset<Yielded>, c: multiset<Yielded>)
    ensures (a + c) + b == (a + b) + c
  {
  }

  lemma Chain(after: multiset<Yielded>, before: multiset<Yielded>, base: multiset<Yielded>,
              done: multiset<Yielded>, step: multiset<Yielded>, done1: multiset<Yielded>)
    requires after == before + step && before == base + done && done1 == done + step
    ensures after == base + done1
  {
  }

  /** The body of NameNodeGenerator.__iter__'s loop over children, for child i of `current`. */
  method YieldChild(root: Node, current: Path, i: nat, out0: seq<Yielded>, nodes0: seq<Path>)
    returns (out: seq<Yielded>, nodes: seq<Path>)
    requires ValidPath(root, current) && i < |At(root, current).kids|
    requires forall k :: 0 <= k < |nodes0| ==> ValidPath(root, nodes0[k])
    ensures forall k :: 0 <= k < |nodes| ==> ValidPath(root, nodes[k])
    ensures multiset(out) + Stacked(root, nodes) ==
              multiset(out0) + Stacked(root, nodes0) + ChildYield(At(root, current).kids[i], current + [i])
    ensures Pending(root, nodes) <= Pending(root, nodes0) + Size(At(root, current).kids[i])
  {
    var child := At(root, current).kids[i];
    var q := current + [i];
    AtSnoc(root, current, i);
    out := YieldOwn(child, q, out0);
    nodes := nodes0;
    if Descends(child) {
      StackedPush(root, nodes, q);
      PendingPush(root, nodes, current, i);
      nodes := nodes + [q];
      Reassociate(multiset(out), Visible(child, q), Stacked(root, nodes0));
    } else {
      Reassociate(multiset(out0), multiset(Own(child, q)), Stacked(root, nodes0));
    }
  }

  /**
   * The yields of NameNodeGenerator.__iter__ for one child: the Name itself,
   * or the synthesised Names, with `continue` where the code does not descend.
   */
  method YieldOwn(child: Node, q: Path, out0: seq<Yielded>) returns (out: seq<Yielded>)
    ensures out == out0 + Own(child, q)
  {
    out := out0;
    match child.kind {
      case Name(_, _) =>
        out := out + [Real(q)];
      case Alias(name, asname) =>
        out := out + [Synth(if asname.Some? then asname.value else name, q)];
      case FunctionDef(name) =>
        out := out + [Synth(name, q)];
      case ClassDef(name) =>
        out := out + [Synth(name, q)];
      case Global(names) =>
        out := YieldGlobal(out, names, q);
      case Arguments(_, vararg, kwarg) =>
        if vararg.Some? {
          out := out + [Synth(vararg.value, q)];
        }
        if kwarg.Some? {
          out := out + [Synth(kwarg.value, q)];
        }
      case _ =>
    }
  }

  /** One turn of the loop in YieldChildren: child i joins what the first i children yielded. */
  method YieldNext(root: Node, current: Path, i: nat, out0: seq<Yielded>, nodes0: seq<Path>,
                   ghost base: multiset<Yielded>, ghost bound: nat)
    returns (out: seq<Yielded>, nodes: seq<Path>)
    requires ValidPath(root, current) && i < |At(root, current).kids|
    requires forall k :: 0 <= k < |nodes0| ==> ValidPath(root, nodes0[k])
    requires multiset(out0) + Stacked(root, nodes0) == base + YieldKids(At(root, current), current, i)
    requires Pending(root, nodes0) <= bound + SumSizes(At(root, current).kids[..i])
    ensures forall k :: 0 <= k < |nodes| ==> ValidPath(root, nodes[k])
    ensures multiset(out) + Stacked(root, nodes) == base + YieldKids(At(root, current), current, i + 1)
    ensures Pending(root, nodes) <= bound + SumSizes(At(root, current).kids[..i + 1])
  {
    var node := At(root, current);
    SumSizesSnoc(node.kids, i);
    out, nodes := YieldChild(root, current, i, out0, nodes0);
    Chain(multiset(out) + Stacked(root, nodes), multiset(out0) + Stacked(root, nodes0), base,
          YieldKids(node, current, i), ChildYield(node.kids[i], current + [i]),
          YieldKids(node, current, i + 1));
  }

  /** The inner loop of NameNodeGenerator.__iter__ over the children of `current`. */
  method YieldChildren(root: Node, current: Path, out0: seq<Yielded>, rest: seq<Path>)
    returns (out: seq<Yielded>, nodes: seq<Path>)
    requires ValidPath(root, current)
    requires forall k :: 0 <= k < |rest| ==> ValidPath(root, rest[k])
    ensures forall k :: 0 <= k < |nodes| ==> ValidPath(root, nodes[k])
    ensures multiset(out) + Stacked(root, nodes) == multiset(out0) + Stacked(root, rest) + Visible(At(root, current), current)
    ensures Pending(root, nodes) <= Pending(root, rest) + SumSizes(At(root, current).kids)
  {
    out, nodes := out0, rest;
    var node := At(root, current);
    var children := node.kids;
    ghost var base := multiset(out0) + Stacked(root, rest);
    ghost var bound := Pending(root, rest);
    for i := 0 to |children|
      invariant forall k :: 0 <= k < |nodes| ==> ValidPath(root, nodes[k])
      invariant multiset(out) + Stacked(root, nodes) == base + YieldKids(node, current, i)
      invariant Pending(root, nodes) <= bound + SumSizes(children[..i])
    {
      out, nodes := YieldNext(root, current, i, out, nodes, base, bound);
    }
    assert children[..|children|] == children;
  }

  /**
   * NameNodeGenerator(node).__iter__, collected into a list: a work-list walk
   * below `start` that yields every Name it meets without descending into
   * it, a synthesised Name per alias, per definition name (without entering
   * the definition), per `global` name and per vararg/kwarg, and descends
   * into everything else.
   */
  method NameNodes(root: Node, start: Path) returns (out: seq<Yielded>)
    requires ValidPath(root, start)
    ensures multiset(out) == Visible(At(root, start), start)
  {
    var nodes := [start];
    out := [];
    assert Stacked(root, nodes) == Visible(At(root, start), start) by {
      assert nodes[..0] == [];
    }
    assert Pending(root, nodes) == Size(At(root, start)) by {
      assert nodes[..0] == [];
    }
    while |nodes| > 0
      invariant forall k :: 0 <= k < |nodes| ==> ValidPath(root, nodes[k])
      invariant multiset(out) + Stacked(root, nodes) == Visible(At(root, start), start)
      decreases Pending(root, nodes)
    {
      var current := nodes[|nodes| - 1];
      var rest := nodes[..|nodes| - 1];
      assert Pending(root, nodes) == Pending(root, rest) + Size(At(root, current));
      assert Stacked(root, nodes) == Stacked(root, rest) + Visible(At(root, current), current);
      out, nodes := YieldChildren(root, current, out, rest);
    }
  }

  /** The position an item stands for, and whether it is a tree Name or a synthesised one named id. */
  function Pos(y: Yielded): Path {
    if y.Real? then y.at else y.from
  }

  datatype Tag = NameTag | SynthTag(id: string)

  function TagOf(y: Yielded): Tag {
    if y.Real? then NameTag else SynthTag(y.id)
  }

  /** The child c itself yields an item with this tag: a Name, or a node that synthesises the name. */
  predicate OwnEmits(c: Node, tag: Tag) {
    match tag
    case NameTag => c.kind.Name?
    case SynthTag(id) =>
      match c.kind
      case Alias(name, asname) => (if asname.Some? then asname.value else name) == id
      case FunctionDef(name) => name == id
      case ClassDef(name) => name == id
      case Global(names) => id in names
      case Arguments(_, vararg, kwarg) => vararg == Some(id) || kwarg == Some(id)
      case _ => false
  }

  /**
   * The node at relative position r below n yields an item with this tag:
   * it emits it itself, and every node strictly between n and it is one the
   * generator descends into.
   */
  predicate Emits(n: Node, r: Path, tag: Tag)
    decreases |r|
  {
    |r| >= 1 && r[0] < |n.kids| &&
    if |r| == 1 then OwnEmits(n.kids[r[0]], tag)
    else Descends(n.kids[r[0]]) && Emits(n.kids[r[0]], r[1..], tag)
  }

  lemma OwnExactly(c: Node, q: Path, y: Yielded)
    ensures y in Own(c, q) <==> Pos(y) == q && OwnEmits(c, TagOf(y))
  {
    if c.kind.Global? && y.Synth? && y.from == q && y.id in c.kind.names {
      var k :| 0 <= k < |c.kind.names| && c.kind.names[k] == y.id;
      assert GlobalNames(c.kind.names, q)[k] == y;
    }
  }

  lemma {:induction false} ChildYieldExactly(c: Node, q: Path, y: Yielded)
    ensures y in ChildYield(c, q) <==>
              IsPrefix(q, Pos(y)) &&
              (|Pos(y)| == |q| ==> OwnEmits(c, TagOf(y))) &&
              (|Pos(y)| > |q| ==> Descends(c) && Emits(c, Pos(y)[|q|..], TagOf(y)))
    decreases c, 2, 0
  {
    OwnExactly(c, q, y);
    if Descends(c) {
      VisibleExactly(c, q, y);
    }
  }

  /**
   * NameNodeGenerator yields exactly the Names and synthesised Names that
   * Emits describes: y is yielded for the node at `at` iff y's position lies
   * strictly below `at` and is reached only through nodes the generator
   * descends into (so nothing inside a Name, a nested definition, an alias
   * or a `global` is ever yielded).
   */
  lemma {:induction false} VisibleExactly(n: Node, at: Path, y: Yielded)
    ensures y in Visible(n, at) <==> IsStrictPrefix(at, Pos(y)) && Emits(n, Pos(y)[|at|..], TagOf(y))
    decreases n, 1, 0
  {
    YieldKidsExactly(n, at, |n.kids|, y);
  }

  lemma {:induction false} YieldKidsExactly(n: Node, at: Path, i: nat, y: Yielded)
    requires i <= |n.kids|
    ensures y in YieldKids(n, at, i) <==>
              IsStrictPrefix(at, Pos(y)) && Pos(y)[|at|] < i && Emits(n, Pos(y)[|at|..], TagOf(y))
    decreases n, 0, i
  {
    if i > 0 {
      assert y in YieldKids(n, at, i) <==> y in YieldKids(n, at, i - 1) || y in ChildYield(n.kids[i - 1], at + [i - 1]);
      YieldKidsExactly(n, at, i - 1, y);
      ChildYieldAt(n, at, i - 1, y);
    }
  }

  /** Child j of the node at `at` yields exactly what n emits through child j. */
  lemma ChildYieldAt(n: Node, at: Path, j: nat, y: Yielded)
    requires j < |n.kids|
    ensures y in ChildYield(n.kids[j], at + [j]) <==>
              IsStrictPrefix(at, Pos(y)) && Emits(n, Pos(y)[|at|..], TagOf(y)) && Pos(y)[|at|] == j
    decreases n, 0, j, 1
  {
    ChildYieldExactly(n.kids[j], at + [j], y);
    EmitsStep(n, at, j, Pos(y), TagOf(y));
  }

  /** Emitting from below child j of n, stated on absolute positions. */
  lemma EmitsStep(n: Node, at: Path, j: nat, p: Path, tag: Tag)
    requires j < |n.kids|
    ensures (IsStrictPrefix(at, p) && p[|at|] == j && Emits(n, p[|at|..], tag)) <==>
            (IsPrefix(at + [j], p) &&
             (|p| == |at + [j]| ==> OwnEmits(n.kids[j], tag)) &&
             (|p| > |at + [j]| ==> Descends(n.kids[j]) && Emits(n.kids[j], p[|at + [j]|..], tag)))
  {
    var q := at + [j];
    if IsStrictPrefix(at, p) && p[|at|] == j {
      assert p[..|q|] == p[..|at|] + [p[|at|]];
      var r := p[|at|..];
      assert r[0] == j;
      assert r[1..] == p[|q|..];
    }
    if IsPrefix(q, p) {
      assert p[..|at|] == q[..|at|];
      assert q[..|at|] == at;
      assert p[|at|] == q[|at|];
      var r := p[|at|..];
      assert r[1..] == p[|q|..];
    }
  }
}
