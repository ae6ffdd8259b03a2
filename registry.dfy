/**
 * The package registry of pycc/module.py: a `Package` maps module file
 * locations and dotted import paths to `Module` records, and `get` resolves
 * an import path to the closest registered module.
 *
 * Locations are taken as already canonical (what `os.path.realpath` would
 * return) and the separator `os.sep` is '/'.
 */
module Registry {
  import opened Wrappers
  import Syntax
  import opened PosixPath

  /** A module of the package: where its file is, its import path and its parsed tree. */
  datatype Module = Module(location: string, path: string, node: Option<Syntax.Node>)

  /** What `get` resolves a path to: a module and, when the path went one step past it, the name inside it. */
  datatype ImportResult = ImportResult(mod: Module, target: Option<string>)

  /** A module file's import path from its path below the package's parent: no `__init__.py`, no `.py`. */
  function StripModuleFile(path: string): (r: string)
    ensures EndsWith(path, ".py") && !EndsWith(path, "__init__.py") ==> r == path[..|path| - 3]
    ensures !EndsWith(path, ".py") ==> r == path
  {
    var p := if EndsWith(path, "__init__.py") then Split(path).0 else path;
    if EndsWith(p, ".py") then p[..|p| - 3] else p
  }

  /**
   * `_path_from_location` as written: the location split at EVERY occurrence
   * of the package's parent directory, keeping the second piece.
   */
  function PathFromLocationAsWritten(packageLocation: string, location: string): (r: Result<string>)
    ensures Split(packageLocation).0 == [] ==> r == Err(ValueError)
  {
    match SecondField(location, Split(packageLocation).0)
    case Err(e) => Err(e)
    case Ok(path) => Ok(StripModuleFile(path))
  }

  /**
   * `_path_from_location` as intended: the location's part after the
   * package's own directory, under "/" and the package's name.
   */
  function PathFromLocation(packageLocation: string, location: string): (r: Result<string>)
    ensures r.Err? <==> packageLocation == [] || !Contains(location, packageLocation)
    ensures StartsWith(location, packageLocation) && packageLocation != [] ==>
      r == Ok(StripModuleFile("/" + Split(packageLocation).1 + location[|packageLocation|..]))
  {
    match AfterFirst(location, packageLocation)
    case Err(e) => Err(e)
    case Ok(rest) => Ok(StripModuleFile("/" + Split(packageLocation).1 + rest))
  }

  /** The lookup key `get` builds: dots become separators and the path is made absolute. */
  function NormalizePath(path: string): (r: string)
    ensures StartsWith(r, "/")
  {
    var p := if Contains(path, ".") then ReplaceChar(path, '.', '/') else path;
    if !StartsWith(p, "/") then Join("/", p) else p
  }

  /** `get` on the registry's path map. */
  function GetFrom(paths: map<string, Module>, path: string): (r: Option<ImportResult>)
    ensures NormalizePath(path) in paths ==> r == Some(ImportResult(paths[NormalizePath(path)], None))
    ensures NormalizePath(path) !in paths && Split(NormalizePath(path)).0 in paths ==>
      r == Some(ImportResult(paths[Split(NormalizePath(path)).0], Some(Split(NormalizePath(path)).1)))
    ensures NormalizePath(path) !in paths && Split(NormalizePath(path)).0 !in paths ==> r == None
  {
    var key := NormalizePath(path);
    if key in paths then Some(ImportResult(paths[key], None))
    else
      var (head, target) := Split(key);
      if head !in paths then None else Some(ImportResult(paths[head], Some(target)))
  }

  /**
   * The package's two maps agree: every module is keyed by its own location
   * and path and sits at the path computed from its location under the
   * package location; a module registered under a path is also registered
   * under its location.
   */
  ghost predicate Registered(package: string, locations: map<string, Module>, paths: map<string, Module>) {
    (forall l :: l in locations ==>
      locations[l].location == l && PathFromLocation(package, l) == Ok(locations[l].path)) &&
    (forall p :: p in paths ==>
      paths[p].path == p && paths[p].location in locations && locations[paths[p].location] == paths[p])
  }

  /** Registering a module under its location and its computed path keeps the maps in agreement. */
  lemma RegisterKeeps(package: string, locations: map<string, Module>, paths: map<string, Module>, m: Module)
    requires Registered(package, locations, paths) && PathFromLocation(package, m.location) == Ok(m.path)
    ensures Registered(package, locations[m.location := m], paths[m.path := m])
  {
    LocationsKeep(package, locations, m);
    PathsKeep(package, locations, paths, m);
  }

  lemma LocationsKeep(package: string, locations: map<string, Module>, m: Module)
    requires forall l :: l in locations ==> locations[l].location == l && PathFromLocation(package, l) == Ok(locations[l].path)
    requires PathFromLocation(package, m.location) == Ok(m.path)
    ensures var locs := locations[m.location := m];
      forall l :: l in locs ==> locs[l].location == l && PathFromLocation(package, l) == Ok(locs[l].path)
  {
    var locs := locations[m.location := m];
    forall l | l in locs
      ensures locs[l].location == l && PathFromLocation(package, l) == Ok(locs[l].path)
    {
      if l != m.location {
        assert locs[l] == locations[l];
      }
    }
  }

  lemma PathsKeep(package: string, locations: map<string, Module>, paths: map<string, Module>, m: Module)
    requires Registered(package, locations, paths) && PathFromLocation(package, m.location) == Ok(m.path)
    ensures var locs := locations[m.location := m]; var ps := paths[m.path := m];
      forall p :: p in ps ==> ps[p].path == p && ps[p].location in locs && locs[ps[p].location] == ps[p]
  {
    var locs := locations[m.location := m];
    var ps := paths[m.path := m];
    forall p | p in ps
      ensures ps[p].path == p && ps[p].location in locs && locs[ps[p].location] == ps[p]
    {
      if p != m.path {
        assert ps[p] == paths[p] && PathFromLocation(package, paths[p].location) == Ok(p);
      }
    }
  }

  class Package {
    var location: string
    var root: string
    var locations: map<string, Module>
    var paths: map<string, Module>

    /** The package's maps agree as Registered says, under the package's own location. */
    ghost predicate Valid()
      reads this
    {
      Registered(location, locations, paths)
    }

    /** `Package(location)`: the root is the directory's own name; both maps start empty. */
    constructor (location: string)
      ensures this.location == location && root == Split(location).1
      ensures locations == map[] && paths == map[]
      ensures Valid()
    {
      this.location := location;
      root := Split(location).1;
      locations := map[];
      paths := map[];
    }

    /** `_path_from_location` on this package. */
    function PathOf(location: string): Result<string>
      reads this
    {
      PathFromLocation(this.location, location)
    }

    /**
     * `add(location, node)`: a location outside the package raises
     * ValueError; otherwise the new module is stored under its location and
     * its path, replacing any module already there.
     */
    method Add(location: string, node: Option<Syntax.Node>) returns (r: Result<Module>)
      requires Valid() && this.location != []
      modifies this
      ensures Valid()
      ensures this.location == old(this.location) && root == old(root)
      ensures r.Err? <==> !Contains(location, this.location)
      ensures r.Err? ==> r.error == ValueError && locations == old(locations) && paths == old(paths)
      ensures r.Ok? ==>
        PathOf(location) == Ok(r.value.path) && r.value == Module(location, r.value.path, node) &&
        locations == old(locations)[location := r.value] &&
        paths == old(paths)[r.value.path := r.value]
    {
      // `self.location not in location`: the package location is non-empty,
      // so the path computation fails exactly then.
      var found := PathOf(location);
      if found.Err? {
        r := Err(ValueError);
      } else {
        var path := found.value;
        var m := Module(location, path, node);
        RegisterKeeps(this.location, locations, paths, m);
        locations := locations[location := m];
        paths := paths[path := m];
        r := Ok(m);
      }
    }

    /**
     * `get(path)`: the module registered at the path, else the one at its
     * parent path with the last name as target. What it returns is a module
     * `add` registered, whose location computes to its path.
     */
    function Get(path: string): (r: Option<ImportResult>)
      reads this
      ensures r == GetFrom(paths, path)
      ensures r.None? <==> NormalizePath(path) !in paths && Split(NormalizePath(path)).0 !in paths
      ensures Valid() && r.Some? ==>
        r.value.mod.location in locations && locations[r.value.mod.location] == r.value.mod &&
        PathOf(r.value.mod.location) == Ok(r.value.mod.path)
      ensures Valid() && r.Some? && r.value.target.None? ==> r.value.mod.path == NormalizePath(path)
      ensures Valid() && r.Some? && r.value.target.Some? ==>
        r.value.mod.path == Split(NormalizePath(path)).0 && r.value.target.value == Split(NormalizePath(path)).1
    {
      GetFrom(paths, path)
    }
  }

  // ----- properties -----

  predicate NoDot(s: string) {
    forall i :: 0 <= i < |s| ==> s[i] != '.'
  }

  lemma NoDotNotContained(s: string)
    requires NoDot(s)
    ensures !Contains(s, ".")
  {
    forall i: nat | i <= |s|
      ensures !OccursAt(s, ".", i)
    {
      if i + 1 <= |s| {
        assert s[i..i + 1][0] == s[i];
      }
    }
  }

  /** An absolute path without dots is its own lookup key. */
  lemma NormalizeAbsolute(path: string)
    requires StartsWith(path, "/") && NoDot(path)
    ensures NormalizePath(path) == path
  {
    NoDotNotContained(path);
  }

  /** After a module is stored under its path, `get` of that path returns it with no target. */
  lemma AddedIsFound(paths: map<string, Module>, m: Module)
    requires StartsWith(m.path, "/") && NoDot(m.path)
    ensures GetFrom(paths[m.path := m], m.path) == Some(ImportResult(m, None))
  {
    NormalizeAbsolute(m.path);
  }

  /** The dotted import name of the components: "a.b.c". */
  function Dotted(parts: seq<string>): string {
    if parts == [] then [] else if |parts| == 1 then parts[0] else Dotted(parts[..|parts| - 1]) + "." + parts[|parts| - 1]
  }

  lemma ReplaceCharAppend(a: string, b: string, x: char, y: char)
    ensures ReplaceChar(a + b, x, y) == ReplaceChar(a, x, y) + ReplaceChar(b, x, y)
  {
    var l := ReplaceChar(a + b, x, y);
    var r := ReplaceChar(a, x, y) + ReplaceChar(b, x, y);
    assert forall i :: 0 <= i < |l| ==> l[i] == r[i];
  }

  lemma ReplaceCharNone(s: string)
    requires NoDot(s)
    ensures ReplaceChar(s, '.', '/') == s
  {
  }

  /** Components usable in a dotted name: non-empty, without '/' or '.'. */
  predicate DottedParts(parts: seq<string>) {
    Components(parts) && forall i :: 0 <= i < |parts| ==> NoDot(parts[i])
  }

  /** Replacing the dots of "a.b.c" gives the components joined by '/'. */
  lemma {:induction false} DottedSegments(parts: seq<string>)
    requires parts != [] && DottedParts(parts)
    ensures Segments(parts) == "/" + ReplaceChar(Dotted(parts), '.', '/')
  {
    var front := parts[..|parts| - 1];
    var last := parts[|parts| - 1];
    if |parts| == 1 {
      assert parts == [last];
      DottedSingle(last);
    } else {
      assert DottedParts(front);
      DottedSegments(front);
      ReplaceCharNone(last);
      DottedJoin(front, last);
      assert front + [last] == parts;
    }
  }

  /** A single component: "a" becomes "/a". */
  lemma DottedSingle(last: string)
    requires NoDot(last)
    ensures Segments([last]) == "/" + ReplaceChar(Dotted([last]), '.', '/')
  {
    ReplaceCharNone(last);
    assert [last][..0] == [];
    assert Segments([last]) == "" + "/" + last;
  }

  /** One more component: its '/' in the path is the '.' before it in the dotted name. */
  lemma DottedJoin(front: seq<string>, last: string)
    requires front != [] && NoDot(last)
    requires Segments(front) == "/" + ReplaceChar(Dotted(front), '.', '/')
    ensures Segments(front + [last]) == "/" + ReplaceChar(Dotted(front + [last]), '.', '/')
  {
    var parts := front + [last];
    assert parts[..|parts| - 1] == front && parts[|parts| - 1] == last;
    ReplaceDotJoin(Dotted(front), last);
    calc {
      Segments(parts);
      Segments(front) + "/" + last;
      ("/" + ReplaceChar(Dotted(front), '.', '/')) + "/" + last;
      "/" + (ReplaceChar(Dotted(front), '.', '/') + "/" + last);
      "/" + ReplaceChar(Dotted(front) + "." + last, '.', '/');
      { assert Dotted(parts) == Dotted(front) + "." + last; }
      "/" + ReplaceChar(Dotted(parts), '.', '/');
    }
  }

  lemma ReplaceDotJoin(a: string, last: string)
    requires NoDot(last)
    ensures ReplaceChar(a + "." + last, '.', '/') == ReplaceChar(a, '.', '/') + "/" + last
  {
    ReplaceCharAppend(a + ".", last, '.', '/');
    ReplaceCharAppend(a, ".", '.', '/');
    ReplaceCharNone(last);
    assert ReplaceChar(".", '.', '/') == "/";
  }

  /** The lookup key of "a.b.c" is "/a/b/c". */
  lemma NormalizeDotted(parts: seq<string>)
    requires parts != [] && DottedParts(parts)
    ensures NormalizePath(Dotted(parts)) == PathOf(parts)
  {
    var d := Dotted(parts);
    DottedSegments(parts);
    var seg := Segments(parts);
    var rep := ReplaceChar(d, '.', '/');
    if !Contains(d, ".") {
      NoDotSame(d);
    }
    assert seg[1..] == rep;
    SegmentsSecond(parts);
    assert !StartsWith(rep, "/");
  }

  lemma NoDotSame(s: string)
    requires !Contains(s, ".")
    ensures ReplaceChar(s, '.', '/') == s
  {
    forall i | 0 <= i < |s|
      ensures s[i] != '.'
    {
      assert s[i..i + 1] != "." by {
        assert !OccursAt(s, ".", i);
      }
      assert s[i..i + 1] == [s[i]];
    }
  }

  lemma {:induction false} SegmentsSecond(parts: seq<string>)
    requires parts != [] && Components(parts)
    ensures |Segments(parts)| > 1 && Segments(parts)[1] == parts[0][0]
  {
    if |parts| > 1 {
      SegmentsSecond(parts[..|parts| - 1]);
    } else {
      assert Segments(parts) == "" + "/" + parts[0];
    }
  }

  /**
   * `get("a.b.c")`: the module at /a/b/c; failing that, the module at /a/b
   * with target "c"; failing that, nothing.
   */
  lemma GetDotted(paths: map<string, Module>, parts: seq<string>)
    requires parts != [] && DottedParts(parts)
    ensures var full := PathOf(parts);
      var parent := PathOf(parts[..|parts| - 1]);
      GetFrom(paths, Dotted(parts)) ==
        if full in paths then Some(ImportResult(paths[full], None))
        else if parent in paths then Some(ImportResult(paths[parent], Some(parts[|parts| - 1])))
        else None
  {
    NormalizeDotted(parts);
    SplitPath(parts);
  }

  /** A module file `<package>/<rel>.py` has the path "/<package name><rel>". */
  lemma ModuleFilePath(packageLocation: string, rel: string)
    requires packageLocation != [] && StartsWith(rel, "/") && !EndsWith(rel, "__init__")
    ensures PathFromLocation(packageLocation, packageLocation + rel + ".py")
      == Ok("/" + Split(packageLocation).1 + rel)
  {
    var loc := packageLocation + rel + ".py";
    assert loc[..|packageLocation|] == packageLocation;
    assert StartsWith(loc, packageLocation);
    assert loc[|packageLocation|..] == rel + ".py";
    var path := "/" + Split(packageLocation).1 + rel;
    assert "/" + Split(packageLocation).1 + loc[|packageLocation|..] == path + ".py";
    assert EndsWith(path + ".py", ".py") by {
      assert (path + ".py")[|path|..] == ".py";
    }
    assert path[|path| - |rel|..] == rel;
    NotInitFile(path, rel);
    assert (path + ".py")[..|path|] == path;
  }

  lemma NotInitFile(path: string, rel: string)
    requires StartsWith(rel, "/") && !EndsWith(rel, "__init__")
    requires |rel| <= |path| && path[|path| - |rel|..] == rel
    ensures !EndsWith(path + ".py", "__init__.py")
  {
    var t := path + ".py";
    var w := "__init__.py";
    var k := |t| - 11;
    if |t| >= 11 {
      if |rel| >= 8 {
        assert t[k..|t| - 3] == rel[|rel| - 8..];
        assert rel[|rel| - 8..] != "__init__";
        assert w[..8] == "__init__";
        assert t[k..][..8] == t[k..|t| - 3];
      } else {
        var p := |path| - |rel|;
        assert t[p] == '/';
        assert t[k..][p - k] == '/';
        assert w[p - k] != '/';
      }
    }
  }

  /** The package's own `__init__.py` has the path "/<package name>". */
  lemma InitFilePath(packageLocation: string)
    requires packageLocation != []
    requires var root := Split(packageLocation).1; root != [] && !EndsWith(root, ".py")
    ensures PathFromLocation(packageLocation, packageLocation + "/__init__.py")
      == Ok("/" + Split(packageLocation).1)
  {
    var root := Split(packageLocation).1;
    var loc := packageLocation + "/__init__.py";
    assert loc[..|packageLocation|] == packageLocation;
    assert StartsWith(loc, packageLocation);
    assert loc[|packageLocation|..] == "/__init__.py";
    InitFileStrip(root);
  }

  /** "/<root>/__init__.py" loses its file name and nothing else. */
  lemma InitFileStrip(root: string)
    requires root != [] && NoSlash(root) && !EndsWith(root, ".py")
    ensures StripModuleFile("/" + root + "/__init__.py") == "/" + root
  {
    var dir := "/" + root;
    var path := dir + "/" + "__init__.py";
    assert "/" + root + "/__init__.py" == path;
    assert EndsWith(path, "__init__.py") by {
      assert path[|path| - 11..] == "__init__.py";
    }
    assert NoSlash("__init__.py");
    assert dir[|dir| - 1] == root[|root| - 1];
    SplitJoined(dir, "__init__.py");
    assert Split(path).0 == dir;
    SlashedNotPy(root);
  }

  /** A name that does not end in ".py" does not once a slash is put before it. */
  lemma SlashedNotPy(root: string)
    requires !EndsWith(root, ".py")
    ensures !EndsWith("/" + root, ".py")
  {
    var dir := "/" + root;
    if |root| >= 3 {
      assert dir[|dir| - 3..] == root[|root| - 3..];
    } else if |dir| >= 3 {
      assert dir[|dir| - 3..][0] == '/';
    }
  }

  /**
   * Adding a module file and getting its path back: `get` of the path
   * computed for `<package>/<rel>.py` returns the module just stored.
   */
  lemma AddThenGet(paths: map<string, Module>, packageLocation: string, rel: string, node: Option<Syntax.Node>)
    requires packageLocation != [] && StartsWith(rel, "/") && !EndsWith(rel, "__init__")
    requires NoDot(Split(packageLocation).1) && NoDot(rel)
    ensures var location := packageLocation + rel + ".py";
      var path := "/" + Split(packageLocation).1 + rel;
      var m := Module(location, path, node);
      PathFromLocation(packageLocation, location) == Ok(path) &&
      GetFrom(paths[path := m], path) == Some(ImportResult(m, None))
  {
    var root := Split(packageLocation).1;
    ModuleFilePath(packageLocation, rel);
    var path := "/" + root + rel;
    NoDotJoined(root, rel);
    AddedIsFound(paths, Module(packageLocation + rel + ".py", path, node));
  }

  lemma NoDotJoined(root: string, rel: string)
    requires NoDot(root) && NoDot(rel)
    ensures NoDot("/" + root + rel)
  {
    var path := "/" + root + rel;
    assert forall i :: 0 <= i < |path| ==> path[i] == if i == 0 then '/' else if i <= |root| then root[i - 1] else rel[i - 1 - |root|];
  }

  // ----- the finding: splitting at every occurrence of the parent directory -----

  lemma ExamplePackageSplit()
    ensures Split("/s/p") == ("/s", "p")
  {
    assert NoSlash("p");
    assert "/s/p" == "/s" + "/" + "p";
    SplitJoined("/s", "p");
  }

  /**
   * Package /s/p, module file /s/p/s/u.py: as written the location is split
   * at both occurrences of "/s", so the module gets the path "/p" (the
   * package's own path) where "/p/s/u" is meant.
   */
  lemma PathFromLocationRepeatedParent()
    ensures PathFromLocationAsWritten("/s/p", "/s/p/s/u.py") == Ok("/p")
    ensures PathFromLocation("/s/p", "/s/p/s/u.py") == Ok("/p/s/u")
    ensures PathFromLocation("/s/p", "/s/p/s/u.py") != PathFromLocationAsWritten("/s/p", "/s/p/s/u.py")
  {
    ExamplePackageSplit();
    RepeatedParentAsWritten();
    RepeatedParentCorrected();
  }

  lemma RepeatedParentCorrected()
    requires Split("/s/p") == ("/s", "p")
    ensures PathFromLocation("/s/p", "/s/p/s/u.py") == Ok("/p/s/u")
  {
    assert !EndsWith("/s/u", "__init__");
    ModuleFilePath("/s/p", "/s/u");
    RepeatedParentSpelling();
  }

  /** The concatenations the corrected example spells out. */
  lemma RepeatedParentSpelling()
    ensures "/s/p" + "/s/u" + ".py" == "/s/p/s/u.py"
    ensures "/" + "p" + "/s/u" == "/p/s/u"
  {
  }

  lemma RepeatedParentAsWritten()
    requires Split("/s/p") == ("/s", "p")
    ensures PathFromLocationAsWritten("/s/p", "/s/p/s/u.py") == Ok("/p")
  {
    var loc := "/s/p/s/u.py";
    assert OccursAt(loc, "/s", 0);
    assert FindFrom(loc, "/s", 0) == Some(0);
    var rest := loc[2..];
    assert rest == "/p/s/u.py";
    assert !OccursAt(rest, "/s", 0) && !OccursAt(rest, "/s", 1) && OccursAt(rest, "/s", 2);
    assert FindFrom(rest, "/s", 0) == Some(2);
    assert rest[..2] == "/p";
    assert SecondField(loc, "/s") == Ok("/p");
    assert !EndsWith("/p", ".py");
  }
}
