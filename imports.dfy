/**
 * `normalized_import` (pycc/asttools/imports.py): the absolute, '/'-separated
 * paths an import statement refers to, in the form `Package.get` looks up.
 *
 * `import a.b` names `/a/b`; `from m import x` at level 0 names `/m/x`; at
 * level k > 0 the base is the importing module's path with its last k
 * components split off by `os.path.split`.
 */
module Imports {
  import opened Wrappers
  import opened Syntax
  import opened PosixPath

  /** `tuple(f(n) for n in names)`: the first exception raised aborts the tuple. */
  function MapAll(names: seq<Node>, f: Node -> Result<string>): (r: Result<seq<string>>)
    ensures r.Ok? <==> forall i :: 0 <= i < |names| ==> f(names[i]).Ok?
    ensures r.Ok? ==> |r.value| == |names| && forall i :: 0 <= i < |names| ==> f(names[i]) == Ok(r.value[i])
    ensures r.Err? ==> exists i :: 0 <= i < |names| && f(names[i]) == Err(r.error)
  {
    if names == [] then Ok([])
    else
      match MapAll(names[..|names| - 1], f)
      case Err(e) => Err(e)
      case Ok(front) =>
        match f(names[|names| - 1])
        case Err(e) => Err(e)
        case Ok(last) => Ok(front + [last])
  }

  /** The path of `import <name>`: the dotted name with '/' separators under the root. */
  function ImportEntry(alias: Node): (r: Result<string>)
    ensures r.Err? <==> !alias.kind.Alias?
    ensures r.Err? ==> r.error == AttributeError
  {
    if !alias.kind.Alias? then Err(AttributeError)
    else Ok(Join("/", ReplaceChar(alias.kind.name, '.', '/')))
  }

  /** The path of one alias of `from <modname> import <name>`, below `source`; no module name raises. */
  function FromEntry(source: string, modname: Option<string>, alias: Node): (r: Result<string>)
    ensures r.Err? <==> !alias.kind.Alias? || modname.None?
    ensures r.Err? ==> r.error == AttributeError
  {
    if !alias.kind.Alias? || modname.None? then Err(AttributeError)
    else Ok(Join(Join(source, modname.value), alias.kind.name))
  }

  /** `step` applied k times. */
  function Iterate(step: string -> string, s: string, k: nat): string
    decreases k
  {
    if k == 0 then s else Iterate(step, step(s), k - 1)
  }

  /** Applying the step k times and then j more times applies it k + j times. */
  lemma {:induction false} IterateAdd(step: string -> string, s: string, k: nat, j: nat)
    ensures Iterate(step, Iterate(step, s, k), j) == Iterate(step, s, k + j)
    decreases k
  {
    if k > 0 {
      IterateAdd(step, step(s), k - 1, j);
    }
  }

  /** Applying the step once more to the result of k steps. */
  lemma {:induction false} IterateOneMore(step: string -> string, s: string, k: nat)
    ensures Iterate(step, s, k + 1) == step(Iterate(step, s, k))
    decreases k
  {
    if k > 0 {
      IterateOneMore(step, step(s), k - 1);
    }
  }

  /** The head of `os.path.split`. */
  function Parent(s: string): string {
    Split(s).0
  }

  /** The head of `os.path.split` applied k times. */
  function DropComponents(s: string, k: nat): string {
    Iterate(Parent, s, k)
  }

  /** The first of k > 0 splits. */
  lemma DropFirst(s: string, k: nat)
    requires k > 0
    ensures DropComponents(s, k) == DropComponents(Split(s).0, k - 1)
  {
  }

  /** What is left after splitting is a prefix of the original path. */
  lemma {:induction false} DropPrefix(s: string, k: nat)
    ensures StartsWith(s, DropComponents(s, k))
    decreases k
  {
    if k > 0 {
      SplitParts(s);
      DropPrefix(Split(s).0, k - 1);
      PrefixTransitive(s, Split(s).0, DropComponents(s, k));
    }
  }

  lemma PrefixTransitive(a: string, b: string, c: string)
    requires StartsWith(a, b) && StartsWith(b, c)
    ensures StartsWith(a, c)
  {
    assert a[..|c|] == a[..|b|][..|c|];
  }

  /** A name from the parser: it does not start with '.' or '/'. */
  predicate PlainName(name: string) {
    name == [] || (name[0] != '.' && name[0] != '/')
  }

  /** The base directory of a `from` import at the given level, for a module at `modulePath`. */
  function SourceModule(modulePath: string, level: nat): string {
    DropComponents(if level > 0 then modulePath else "/", level)
  }

  /**
   * The paths named by an import statement, one per alias in order; a
   * statement of any other kind raises ValueError.
   */
  function NormalizedImport(node: Node, modulePath: string): (r: Result<seq<string>>)
    ensures !node.kind.Import? && !node.kind.ImportFrom? <==> r == Err(ValueError)
    ensures r.Ok? ==> |r.value| == |node.kids|
  {
    match node.kind
    case Import => MapAll(node.kids, ImportEntry)
    case ImportFrom(modname, level) =>
      var source := SourceModule(modulePath, level);
      MapAll(node.kids, alias => FromEntry(source, modname, alias))
    case _ => Err(ValueError)
  }

  /** One more split applied to the result of k splits. */
  lemma DropOneMore(s: string, k: nat)
    ensures DropComponents(s, k + 1) == Split(DropComponents(s, k)).0
  {
    IterateOneMore(Parent, s, k);
  }

  /** The loop of `normalized_import` that walks `level` directories up from the module. */
  method FindSourceModule(modulePath: string, level: nat) returns (source: string)
    ensures source == SourceModule(modulePath, level)
  {
    source := if level > 0 then modulePath else "/";
    ghost var base := source;
    var x := 0;
    while x < level
      invariant x <= level
      invariant source == DropComponents(base, x)
    {
      DropOneMore(base, x);
      source := Split(source).0;
      x := x + 1;
    }
  }

  /** `normalized_import`. */
  method NormalizeImport(node: Node, modulePath: string) returns (r: Result<seq<string>>)
    ensures r == NormalizedImport(node, modulePath)
  {
    match node.kind {
      case Import =>
        r := MapAll(node.kids, ImportEntry);
      case ImportFrom(modname, level) =>
        var source := FindSourceModule(modulePath, level);
        r := MapAll(node.kids, alias => FromEntry(source, modname, alias));
      case _ =>
        r := Err(ValueError);
    }
  }

  // ----- properties -----

  /** Splitting k then j times is splitting k + j times. */
  lemma DropAdd(s: string, k: nat, j: nat)
    ensures DropComponents(DropComponents(s, k), j) == DropComponents(s, k + j)
  {
    IterateAdd(Parent, s, k, j);
  }

  /** Splitting never goes above the root: "/" is a fixed point. */
  lemma DropRoot(k: nat)
    ensures DropComponents("/", k) == "/"
  {
    SplitRoot();
    IterateFixed(Parent, "/", k);
  }

  /** An absolute path stays absolute however many components are dropped. */
  lemma {:induction false} DropKeepsRoot(s: string, k: nat)
    requires StartsWith(s, "/")
    ensures StartsWith(DropComponents(s, k), "/")
    decreases k
  {
    if k > 0 {
      SplitKeepsRoot(s);
      DropKeepsRoot(Split(s).0, k - 1);
    }
  }

  /**
   * Splitting k times drops the last k components of an absolute path, and
   * stops at "/" once they run out.
   */
  lemma DropPath(parts: seq<string>, k: nat)
    requires Components(parts)
    ensures k <= |parts| ==> DropComponents(PathOf(parts), k) == PathOf(parts[..|parts| - k])
    ensures k > |parts| ==> DropComponents(PathOf(parts), k) == "/"
  {
    SplitRoot();
    forall j | 0 < j <= |parts|
      ensures Parent(PathOf(parts[..j])) == PathOf(parts[..j - 1])
    {
      var p := parts[..j];
      assert Components(p);
      SplitPath(p);
      assert p[..|p| - 1] == parts[..j - 1];
    }
    IterateDrops(Parent, parts, k);
  }

  /** `step` turns the path of each prefix of parts into the path of the next shorter one, and keeps "/". */
  predicate DropsLast(step: string -> string, parts: seq<string>) {
    step("/") == "/" && forall j :: 0 < j <= |parts| ==> step(PathOf(parts[..j])) == PathOf(parts[..j - 1])
  }

  lemma {:induction false} IterateDrops(step: string -> string, parts: seq<string>, k: nat)
    requires DropsLast(step, parts)
    ensures k <= |parts| ==> Iterate(step, PathOf(parts), k) == PathOf(parts[..|parts| - k])
    ensures k > |parts| ==> Iterate(step, PathOf(parts), k) == "/"
    decreases k
  {
    if k == 0 {
      assert parts[..|parts|] == parts;
    } else if parts == [] {
      IterateFixed(step, "/", k);
    } else {
      var front := parts[..|parts| - 1];
      assert parts[..|parts|] == parts;
      assert step(PathOf(parts)) == PathOf(front);
      assert DropsLast(step, front) by {
        forall j | 0 < j <= |front|
          ensures step(PathOf(front[..j])) == PathOf(front[..j - 1])
        {
          assert front[..j] == parts[..j] && front[..j - 1] == parts[..j - 1];
        }
      }
      IterateDrops(step, front, k - 1);
      if k <= |parts| {
        assert front[..|front| - (k - 1)] == parts[..|parts| - k];
      }
    }
  }

  /** A fixed point of the step stays put. */
  lemma {:induction false} IterateFixed(step: string -> string, s: string, k: nat)
    requires step(s) == s
    ensures Iterate(step, s, k) == s
    decreases k
  {
    if k > 0 {
      IterateFixed(step, s, k - 1);
    }
  }

  /**
   * `import a.b.c` names "/a/b/c": a leading '/' and the dots turned into
   * separators, one entry per alias in order.
   */
  lemma ImportPaths(node: Node, modulePath: string)
    requires node.kind.Import?
    requires forall i :: 0 <= i < |node.kids| ==> node.kids[i].kind.Alias? && PlainName(node.kids[i].kind.name)
    ensures var r := NormalizedImport(node, modulePath);
      r.Ok? && |r.value| == |node.kids| &&
      forall i :: 0 <= i < |node.kids| ==>
        r.value[i] == "/" + ReplaceChar(node.kids[i].kind.name, '.', '/') &&
        forall j :: 0 <= j < |r.value[i]| ==> r.value[i][j] != '.'
  {
    var r := NormalizedImport(node, modulePath);
    forall i | 0 <= i < |node.kids|
      ensures r.value[i] == "/" + ReplaceChar(node.kids[i].kind.name, '.', '/')
    {
      var name := node.kids[i].kind.name;
      var d := ReplaceChar(name, '.', '/');
      assert ImportEntry(node.kids[i]) == Ok(r.value[i]);
      assert r.value[i] == Join("/", d);
    }
  }

  /** At level 0, `from m import x` names "/m/x" for a plain module name m. */
  lemma FromAbsolutePaths(node: Node, modulePath: string, m: string)
    requires node.kind == ImportFrom(Some(m), 0)
    requires m != [] && !StartsWith(m, "/") && !EndsWith(m, "/")
    requires forall i :: 0 <= i < |node.kids| ==> node.kids[i].kind.Alias? && !StartsWith(node.kids[i].kind.name, "/")
    ensures var r := NormalizedImport(node, modulePath);
      r.Ok? && |r.value| == |node.kids| &&
      forall i :: 0 <= i < |node.kids| ==> r.value[i] == "/" + m + "/" + node.kids[i].kind.name
  {
    var r := NormalizedImport(node, modulePath);
    assert SourceModule(modulePath, 0) == "/";
    var base := Join("/", m);
    assert base == "/" + m;
    assert !EndsWith(base, "/") by {
      assert base[|base| - 1..] == m[|m| - 1..];
    }
    forall i | 0 <= i < |node.kids|
      ensures r.value[i] == "/" + m + "/" + node.kids[i].kind.name
    {
      assert FromEntry("/", Some(m), node.kids[i]) == Ok(r.value[i]);
    }
  }

  /**
   * At level k > 0 the base is the module's path with k components split
   * off: it is a prefix of that path, and it stays absolute for an
   * absolute path, at worst "/".
   */
  lemma FromRelativeBase(modulePath: string, level: nat)
    requires level > 0 && StartsWith(modulePath, "/")
    ensures StartsWith(modulePath, SourceModule(modulePath, level))
    ensures StartsWith(SourceModule(modulePath, level), "/")
  {
    DropPrefix(modulePath, level);
    DropKeepsRoot(modulePath, level);
  }

  /** `from . import x` has no module name and raises AttributeError in os.path.join. */
  lemma FromWithoutModule(node: Node, modulePath: string, level: nat)
    requires node.kind == ImportFrom(None, level) && |node.kids| > 0
    ensures NormalizedImport(node, modulePath) == Err(AttributeError)
  {
  }

  // ----- the documented examples -----

  function TestAlias(name: string, asname: Option<string>): Node {
    Node(Alias(name, asname), [], None)
  }

  /** `import a.b.c.d` names "/a/b/c/d". */
  lemma ExampleImport()
    ensures NormalizedImport(Node(Import, [TestAlias("a.b.c.d", None)], None), "/one/two/three/four/five")
      == Ok(["/a/b/c/d"])
  {
    var n := Node(Import, [TestAlias("a.b.c.d", None)], None);
    ImportPaths(n, "/one/two/three/four/five");
    var d := ReplaceChar("a.b.c.d", '.', '/');
    assert d[0] == 'a' && d[1] == '/' && d[2] == 'b' && d[3] == '/' && d[4] == 'c' && d[5] == '/' && d[6] == 'd';
    assert d == "a/b/c/d";
    assert "/" + d == "/a/b/c/d";
    var r := NormalizedImport(n, "/one/two/three/four/five");
    assert r.value == [r.value[0]];
  }

  /** A single alias of a `from` import below `source`. */
  lemma SingleFrom(level: nat, m: string, name: string, asname: Option<string>, modulePath: string, source: string)
    requires SourceModule(modulePath, level) == source
    ensures NormalizedImport(Node(ImportFrom(Some(m), level), [TestAlias(name, asname)], None), modulePath)
      == Ok([Join(Join(source, m), name)])
  {
    var n := Node(ImportFrom(Some(m), level), [TestAlias(name, asname)], None);
    var r := NormalizedImport(n, modulePath);
    assert FromEntry(source, Some(m), n.kids[0]) == Ok(r.value[0]);
    assert r.value == [r.value[0]];
  }

  /** From module /one/two/three/four/five, `from ..four import cool_feature` names /one/two/three/four/cool_feature. */
  lemma ExampleRelativeInBounds()
    ensures NormalizedImport(Node(ImportFrom(Some("four"), 2), [TestAlias("cool_feature", Some("cool"))], None), "/one/two/three/four/five")
      == Ok(["/one/two/three/four/cool_feature"])
  {
    ExampleModulePath();
    ExampleSource();
    ExampleInBoundsJoin();
    SingleFrom(2, "four", "cool_feature", Some("cool"), "/one/two/three/four/five", PathOf(["one", "two", "three"]));
  }

  /** Two levels up from /one/two/three/four/five is /one/two/three. */
  lemma ExampleSource()
    ensures SourceModule(PathOf(["one", "two", "three", "four", "five"]), 2) == PathOf(["one", "two", "three"])
  {
    ExampleModulePath();
    SourceTwoUp("one", "two", "three", "four", "five");
  }

  /** Two levels up from /a/b/c/d/e is /a/b/c. */
  lemma SourceTwoUp(a: string, b: string, c: string, d: string, e: string)
    requires Components([a, b, c, d, e])
    ensures SourceModule(PathOf([a, b, c, d, e]), 2) == PathOf([a, b, c])
  {
    var parts := [a, b, c, d, e];
    DropPath(parts, 2);
    assert parts[..3] == [a, b, c];
  }

  lemma ExampleInBoundsJoin()
    ensures Join(Join(PathOf(["one", "two", "three"]), "four"), "cool_feature") == "/one/two/three/four/cool_feature"
  {
    var three := ["one", "two", "three"];
    ExampleModulePath();
    ExampleInBoundsPath();
    JoinPath(three, "four");
    assert three + ["four"] == ["one", "two", "three", "four"];
    JoinPath(["one", "two", "three", "four"], "cool_feature");
    assert ["one", "two", "three", "four"] + ["cool_feature"] == ["one", "two", "three", "four", "cool_feature"];
  }

  /** At level 8 splitting stops at the root: the same import names /four/cool_feature. */
  lemma ExampleRelativeOutOfBounds()
    ensures NormalizedImport(Node(ImportFrom(Some("four"), 8), [TestAlias("cool_feature", Some("cool"))], None), "/one/two/three/four/five")
      == Ok(["/four/cool_feature"])
  {
    var parts := ["one", "two", "three", "four", "five"];
    ExampleModulePath();
    DropPath(parts, 8);
    SingleFrom(8, "four", "cool_feature", Some("cool"), PathOf(parts), "/");
    ExampleOutOfBoundsJoin();
  }

  lemma ExampleOutOfBoundsJoin()
    ensures Join(Join("/", "four"), "cool_feature") == "/four/cool_feature"
  {
    ExampleOutOfBoundsPath();
    JoinPath([], "four");
    assert [] + ["four"] == ["four"];
    JoinPath(["four"], "cool_feature");
    assert ["four"] + ["cool_feature"] == ["four", "cool_feature"];
  }

  lemma SegmentsSnoc(parts: seq<string>, p: string)
    ensures Segments(parts + [p]) == Segments(parts) + "/" + p
  {
    assert (parts + [p])[..|parts|] == parts;
  }

  /** "/one/two/three/four", one component at a time. */
  lemma ExampleBase()
    ensures Segments(["one", "two", "three", "four"]) == "/one/two/three/four"
  {
    assert Segments(["one"]) == "/one" by {
      SegmentsSnoc([], "one");
      assert [] + ["one"] == ["one"];
    }
    assert Segments(["one", "two"]) == "/one/two" by {
      SegmentsSnoc(["one"], "two");
      assert ["one"] + ["two"] == ["one", "two"];
    }
    assert Segments(["one", "two", "three"]) == "/one/two/three" by {
      SegmentsSnoc(["one", "two"], "three");
      assert ["one", "two"] + ["three"] == ["one", "two", "three"];
    }
    SegmentsSnoc(["one", "two", "three"], "four");
    assert ["one", "two", "three"] + ["four"] == ["one", "two", "three", "four"];
  }

  /** The module path of the examples, spelled out. */
  lemma ExampleModulePath()
    ensures PathOf(["one", "two", "three", "four", "five"]) == "/one/two/three/four/five"
    ensures Components(["one", "two", "three", "four", "five"])
    ensures Components(["one", "two", "three", "four"]) && Components(["one", "two", "three"])
  {
    ExampleBase();
    SegmentsSnoc(["one", "two", "three", "four"], "five");
    assert ["one", "two", "three", "four"] + ["five"] == ["one", "two", "three", "four", "five"];
  }

  lemma ExampleInBoundsPath()
    ensures PathOf(["one", "two", "three", "four", "cool_feature"]) == "/one/two/three/four/cool_feature"
    ensures NoSlash("cool_feature") && NoSlash("four")
  {
    ExampleBase();
    SegmentsSnoc(["one", "two", "three", "four"], "cool_feature");
    assert ["one", "two", "three", "four"] + ["cool_feature"] == ["one", "two", "three", "four", "cool_feature"];
  }

  lemma ExampleOutOfBoundsPath()
    ensures PathOf(["four", "cool_feature"]) == "/four/cool_feature"
    ensures NoSlash("cool_feature") && NoSlash("four")
  {
    assert ["four", "cool_feature"][..1] == ["four"];
    assert ["four"][..0] == [];
  }
}
