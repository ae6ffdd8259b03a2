# pycc core, modelled in Dafny

pycc is a Python 2 optimiser that works on the `ast` of a package. This
project models its analysis helpers and its optimisation passes, and proves
properties of them.

- **Back-references** (`References`). `add_parent_references` and
  `add_sibling_references` walk the tree with a work-list. They give every
  node its `parent` and its `previous` and `next` siblings. `copy_location`
  carries those attributes over to a new node.
- **Scopes and names** (`Scope`). Scope types and the nearest scope of a
  node. `find_declaration` climbs the scopes, level by level, to the first
  statement that binds a name. `declaration_source` classifies a name as
  Builtin, Imported, Defined or Adopted. `Scope` and `Name` have equality
  and hashing. `NameNodeGenerator` yields the Names a scope can see.
- **Imports** (`Imports`, `PosixPath`). `normalized_import` turns `import`
  and `from … import` statements into package paths. It uses the posixpath
  functions `split`, `join` and `str.replace`, which are modelled here.
- **Package registry** (`Registry`). `module.Package` maps file locations to
  import paths. `get` resolves an import path to a module and possibly a
  target name inside it.
- **Constant inlining** (`ConstantOptimizer`). `ConstantCheck` decides
  whether a module-level name is assigned exactly once, to a simple value.
  `ConstantFinder` reports such assignments. `ConstantInliner` replaces
  each load of such a name by the value. `optimize` runs the finder and then
  one inliner pass per result.
- **Visitor-based finders and transformers** (`NodeFinders`,
  `ConstantVisitors`, `ForList`, `IndexLoops`, `RangeLenLoops`,
  `ReversedRangeLoops`, `LoopFinders`):
  - the assignment counter, the constant finder and the constant inliner of
    `visitors.constants`;
  - the loop over a literal `[0, 1, …, k-1]` that becomes `xrange(k)`;
  - `for i in range(len(S))` whose body reads `S[i]`, which becomes
    `for i in S`;
  - `for i in range(len(S) - 1, -1, -1)`, which becomes `for i in reversed(S)`.

How the model represents the program:

- **Trees.** A tree is a value, `Syntax.Node(kind, kids, loc)`. The kids are
  what `ast.iter_child_nodes` yields, except the Load/Store context and
  operator nodes. Python 2 yields those too; the model keeps them as fields
  of the kind.
- **Node identity.** Python compares nodes by identity. CPython 2.7 shares
  one object per context and per operator between all nodes. Apart from
  those, a parsed tree shares no node, so a node is identified by its
  position, the path of child indices from the root.
- **Node attributes.** The `parent`, `previous` and `next` attributes are
  maps from positions to positions.
- **Exceptions.** A Python exception is an `Err` of `Wrappers.Result`, with
  the exception's class.
- **Visitors with state.** Visitors that update fields are classes. Each of
  their recursive methods is proved equal to a fold function over the tree,
  and the properties are proved about those functions.
- **Transformers.** Transformers that rebuild the tree are functions.

## Model

| member | source | states |
|---|---|---|
| Syntax.CopyLoc | pycc/optimizers/constant.py:157 | the copy keeps the new node's kind and children and takes the old node's location when it has one |
| Syntax.IdOf | pycc/visitors/rangelen.py:48 | `.id` succeeds exactly on a Name and gives its identifier |
| Syntax.ArgsOf | pycc/visitors/rangelen.py:25 | `.args` succeeds exactly on a Call and has its argument count |
| Syntax.EltsOf | pycc/visitors/forlist.py:63 | `.elts` succeeds exactly on a Tuple or a List, is its elements, and otherwise raises AttributeError |
| Syntax.Item | pycc/visitors/reversedrange.py:51 | `s[i]` succeeds exactly when i is in range and gives that element, else raises IndexError |
| Syntax.IdIn | pycc/optimizers/constant.py:155 | the lazy test `id in (t.id for t in targets)`: a result is right about whether some Name target has the id; all-Name targets never raise; a raise is AttributeError and needs a non-Name target |
| Syntax.WellFormedAt | pycc/asttools/references.py:15 | every subtree of a parsed tree has the shapes of a parsed tree |
| References.AddParentReferences | pycc/asttools/references.py:6-18 | every node of the tree gets as parent the node whose children hold it (the root gets None); attributes outside the tree are kept; the work-list pops every node exactly once |
| References.LinkChildren | pycc/asttools/references.py:15-18 | the inner loop pushes each child and points its parent at the popped node, changing no other node |
| References.AddSiblingReferences | pycc/asttools/references.py:21-52 | every non-root node gets as previous and next its neighbouring siblings (None at the ends); the root and positions outside the tree keep their attributes |
| References.LinkSiblings | pycc/asttools/references.py:33-52 | the `< 1`, `== 2` and `> 2` branches together link each child of one node to its neighbours and touch nothing else |
| References.ConsecutiveSiblings | pycc/asttools/references.py:39-52 | after the pass, consecutive children point at each other |
| References.EndSiblings | pycc/asttools/references.py:36-37 | after the pass, the first child has no previous and the last no next |
| References.CopyLocation | tests/asttools/test_references.py:42-55 | the copy keeps the new node's kind and children, takes the old node's location, and has the old node's parent, previous and next attributes, absent where they are absent |
| References.CopyLocationAfterReferences | tests/asttools/test_references.py:42-55 | after both passes, a copy of child j points at its parent and at children j-1 and j+1 |
| Scope.ScopeTypeOf | pycc/asttools/scope.py:113-130 | succeeds exactly on Module, FunctionDef and ClassDef and raises ValueError on anything else |
| Scope.ScopeTypesDistinct | pycc/asttools/scope.py:8-21 | two scope nodes get the same scope type exactly when they are of the same kind |
| Scope.ScopeFrom | pycc/asttools/scope.py:93-110 | climbing parents from a node finds a scope node on its path, and raises ValueError otherwise |
| Scope.ScopeFromFirst | pycc/asttools/scope.py:98-110 | the scope found is the nearest one on the way up, and the climb raises exactly when no node on the way is a scope |
| Scope.NearestScope | pycc/asttools/scope.py:93-110 | the climbing loop computes ScopeFrom from the node's parent attribute |
| Scope.NearestScopeOf | pycc/asttools/scope.py:93-110 | for a tree node, the nearest strict ancestor that is a scope, with no scope in between; ValueError exactly when there is none |
| Scope.MakeScope | pycc/asttools/scope.py:34-37 | a Scope begins at the node itself when it is a scope, else at its nearest scope, and carries that node's scope type |
| Scope.ScopeEq | pycc/asttools/scope.py:46-62 | a Scope compares with a Scope; comparing with an AST node raises AttributeError, because `self.declaration` is not a Scope slot; anything else raises TypeError |
| Scope.ScopeEqHash | pycc/asttools/scope.py:46-70 | Scopes that compare equal have equal hash keys |
| Scope.SameNodeSameScope | pycc/asttools/scope.py:34-56 | two Scopes built from nodes with the same nearest scope compare equal |
| Scope.ParamsBind | pycc/asttools/scope.py:284-288 | a parameter list binds an id when some Name parameter has it; a non-Name parameter met before a match raises AttributeError |
| Scope.Binds | pycc/asttools/scope.py:236-288 | whether one child of a level binds the id (an import alias, an assignment's first target or one of its tuple elements, a definition name, a parameter); only `arguments` can raise |
| Scope.FirstBinding | pycc/asttools/scope.py:234-288 | the first child of a level that binds the id, with no binding child before it; None means no child binds it; a raise comes from a child before any binding one |
| Scope.DeclarationFrom | pycc/asttools/scope.py:229-294 | the declaration found from a scope is a child of that scope or of one of its ancestors |
| Scope.DeclarationShadows | pycc/asttools/scope.py:229-294 | the declaration found is the first binding child at the innermost level that has one, and every level on the way has none; None means no level up to the root binds the id |
| Scope.DeclarationOf | pycc/asttools/scope.py:222-229 | the search starts at the given scope, else at the name's nearest scope, and raises ValueError when there is none |
| Scope.ScanLevel | pycc/asttools/scope.py:234-288 | the loop over one level's children computes FirstBinding |
| Scope.FindDeclaration | pycc/asttools/scope.py:222-294 | the level-by-level loop computes DeclarationOf |
| Scope.Declared | pycc/asttools/scope.py:303 | the given declaration, else the one found from the name's nearest scope; it is a node of the tree |
| Scope.DeclarationSource | pycc/asttools/scope.py:297-320 | Builtin exactly when there is no declaration; Imported exactly when it is an import; otherwise Defined or Adopted, depending on whether both have the same nearest scope |
| Scope.DeclaredLocallyIsDefined | pycc/asttools/scope.py:316-318 | a name declared, not by an import, by a child of its own nearest scope is Defined |
| Scope.DeclaredOutsideIsAdopted | pycc/asttools/scope.py:316-320 | a name declared, not by an import, at a level outside its nearest scope is never Defined, and is Adopted when the declaration has a scope |
| Scope.MakeName | pycc/asttools/scope.py:160-169 | a Name carries the token, its scope (the given one or the nearest), the declaration found from that scope and that declaration's source |
| Scope.SameName | pycc/asttools/scope.py:192-194 | different tokens are never equal; with equal tokens, building either Scope can raise ValueError, and otherwise the Names are equal exactly when both scope positions lead up to the same scope node |
| Scope.NameEq | pycc/asttools/scope.py:176-200 | an ast.Name is wrapped first (its raise propagates) and compared as a Name; a Name is compared by SameName; another AST node is equal when it is the declaration; a string when it is the token; a Scope raises TypeError, because the string comparison gives way to Scope.__eq__; a number, None or a tuple never |
| Scope.NameEqScopes | pycc/asttools/scope.py:190-194 | two Names resolved in scope nodes are equal exactly when their tokens are equal and their scope nodes are one node, so equal tokens in different scopes compare unequal |
| Scope.NameEqAstName | pycc/asttools/scope.py:186-188 | a Name equals an ast.Name exactly when the tokens agree and the ast.Name's nearest scope is the Name's scope |
| Scope.NameEqHash | pycc/asttools/scope.py:206-208 | a Name equal to a Name, an ast.Name or a string has that value's hash key |
| Scope.NameEqReflexive | pycc/asttools/scope.py:176-194 | a Name whose scope node is a scope equals itself |
| Scope.GlobalNames | pycc/asttools/scope.py:382-393 | a `global` statement yields one synthesised Name per name, in order |
| Scope.YieldGlobal | pycc/asttools/scope.py:384-392 | the loop over a `global` statement's names appends GlobalNames |
| Scope.YieldOwn | pycc/asttools/scope.py:348-415 | one child yields what Own says: itself if a Name, a synthesised Name per alias, definition, `global` name, vararg and kwarg |
| Scope.YieldChild | pycc/asttools/scope.py:346-420 | one child's step keeps the generator's invariant: what was yielded plus what the work-list will yield stays the same |
| Scope.YieldChildren | pycc/asttools/scope.py:346-420 | the loop over a popped node's children keeps that invariant |
| Scope.NameNodes | pycc/asttools/scope.py:340-420 | the work-list walk yields exactly the multiset of items the scope can see |
| Scope.OwnExactly | pycc/asttools/scope.py:348-415 | a child yields an item for itself exactly when it is a Name or a node that synthesises that name |
| Scope.VisibleExactly | pycc/asttools/scope.py:340-420 | an item is yielded exactly when its node lies below the start and is reached only through nodes the generator descends into, so nothing inside a Name, a definition, an alias or a `global` is yielded |
| Scope.ChildYieldExactly | pycc/asttools/scope.py:346-420 | what one child contributes, stated by position |
| Scope.YieldKidsExactly | pycc/asttools/scope.py:346-420 | what the first i children contribute, stated by position |
| PosixPath.ReplaceChar | pycc/asttools/imports.py:14 | `str.replace` of one character keeps the length and replaces exactly that character |
| PosixPath.FindFrom | pycc/module.py:21 | the first occurrence of a separator at or after a start index, and None exactly when there is none |
| PosixPath.SecondField | pycc/module.py:21 | `s.split(sep)[1]` raises ValueError for an empty separator and IndexError exactly when the separator does not occur; otherwise it is the text after the first occurrence up to the next occurrence or the end |
| PosixPath.AfterFirst | pycc/module.py:21 | everything after the first occurrence of a separator (for a prefix, the rest of the string); ValueError for an empty separator, IndexError exactly when it does not occur |
| PosixPath.AfterLastSlash | pycc/asttools/imports.py:23 | one past the last '/', with no '/' after it |
| PosixPath.RStripSlashes | pycc/asttools/imports.py:23 | a prefix of the path followed only by '/', not ending in '/' itself |
| PosixPath.Split | pycc/asttools/imports.py:23 | the tail of `os.path.split` has no '/' and head and tail together are no longer than the path |
| PosixPath.SplitParts | pycc/asttools/imports.py:23 | the head is a prefix of the path, and the path is the part up to the last '/' followed by the tail |
| PosixPath.Join | pycc/asttools/imports.py:26 | `os.path.join`: an absolute second part wins; otherwise the parts are joined with exactly one '/' between them |
| PosixPath.SplitKeepsRoot | pycc/asttools/imports.py:23 | the head of an absolute path is absolute |
| PosixPath.SplitRoot | pycc/asttools/imports.py:23 | splitting "/" leaves "/" |
| PosixPath.SplitJoined | pycc/module.py:72 | splitting "a/b" gives ("a", "b") |
| PosixPath.SplitTop | pycc/module.py:72 | splitting "/b" gives ("/", "b") |
| PosixPath.SplitPath | pycc/asttools/imports.py:23 | splitting an absolute path drops exactly its last component |
| PosixPath.JoinPath | pycc/asttools/imports.py:26 | joining an absolute path and a component appends the component |
| Imports.MapAll | pycc/asttools/imports.py:25-28 | the tuple succeeds exactly when every element does, element by element, and an error is one of the elements' errors |
| Imports.ImportEntry | pycc/asttools/imports.py:14 | an alias gives its path, and only a non-alias raises |
| Imports.FromEntry | pycc/asttools/imports.py:26 | a `from` alias gives its path, and a raise means a non-alias or no module name |
| Imports.NormalizedImport | pycc/asttools/imports.py:5-30 | ValueError exactly for a statement that is not an import; otherwise one path per alias |
| Imports.FindSourceModule | pycc/asttools/imports.py:20-23 | the loop that splits `level` times computes the source module |
| Imports.NormalizeImport | pycc/asttools/imports.py:5-30 | the statement-level code computes NormalizedImport |
| Imports.DropPrefix | pycc/asttools/imports.py:21-23 | what is left after the splits is a prefix of the module path |
| Imports.DropAdd | pycc/asttools/imports.py:21-23 | splitting k times and then j times is splitting k + j times |
| Imports.DropRoot | pycc/asttools/imports.py:21-23 | splitting never goes above "/" |
| Imports.DropKeepsRoot | pycc/asttools/imports.py:21-23 | an absolute module path stays absolute |
| Imports.DropPath | pycc/asttools/imports.py:21-23 | k splits drop the last k components, and at most all of them |
| Imports.ImportPaths | pycc/asttools/imports.py:11-16 | `import a.b` names "/a/b", per alias |
| Imports.FromAbsolutePaths | pycc/asttools/imports.py:18-28 | at level 0, `from m import x` names "/m/x", per alias |
| Imports.FromRelativeBase | pycc/asttools/imports.py:20-23 | a relative import's base is an absolute prefix of the module's path |
| Imports.FromWithoutModule | pycc/asttools/imports.py:26 | `from . import x` has no module name and raises AttributeError |
| Imports.ExampleImport | tests/asttools/test_imports.py:21-28 | `import a.b.c.d` names "/a/b/c/d" |
| Imports.ExampleRelativeInBounds | tests/asttools/test_imports.py:31-40 | from /one/two/three/four/five, `from ..four import cool_feature` names /one/two/three/four/cool_feature |
| Imports.ExampleRelativeOutOfBounds | tests/asttools/test_imports.py:43-52 | at level 8 the same import names /four/cool_feature |
| Registry.StripModuleFile | pycc/module.py:22-29 | `.py` is stripped from a plain module file; a path without `.py` is kept |
| Registry.PathFromLocationAsWritten | pycc/module.py:18-31 | the path as written: the location split at every occurrence of the package's parent directory; an empty parent raises ValueError |
| Registry.PathFromLocation | pycc/module.py:18-31 | the corrected path: raises exactly when the package location is empty or does not occur; for a location under the package, it is "/" + package name + the rest |
| Registry.NormalizePath | pycc/module.py:60-66 | the lookup key is absolute |
| Registry.GetFrom | pycc/module.py:57-78 | a registered key gives its module with no target; otherwise the parent key's module with the last component as target, or None |
| Registry.Package.constructor | pycc/module.py:11-16 | the root is the location's last component and both maps start empty |
| Registry.Package.Add | pycc/module.py:33-50 | ValueError exactly for a location outside the package; otherwise the module is stored under its location and under the path the corrected PathFromLocation gives (see "Left out"), and nothing else changes |
| Registry.RegisterKeeps | pycc/module.py:42-50 | storing a module under its location and its computed path keeps every module keyed by its own location and path, and every path entry also registered under its location |
| Registry.Package.Get | pycc/module.py:57-78 | GetFrom on the path map; None exactly when neither the key nor its parent key is registered; in a valid package the result is a module `add` registered under its location, whose path is the key (no target) or the parent key (the last component as target) |
| Registry.NormalizeAbsolute | pycc/module.py:60-66 | an absolute path without dots is its own key |
| Registry.AddedIsFound | pycc/module.py:68-70 | after storing a module under its path, `get` of that path returns it with no target |
| Registry.NormalizeDotted | pycc/module.py:60-66 | the key of "a.b.c" is "/a/b/c" |
| Registry.GetDotted | pycc/module.py:57-78 | a dotted name resolves to the registered module, or to its parent module with the last name as target |
| Registry.ModuleFilePath | tests/test_module.py:33-37 | a module file `<package>/<rel>.py` has the path "/<package name><rel>" |
| Registry.InitFilePath | tests/test_module.py:26-30 | the package's own `__init__.py` has the path "/<package name>" |
| Registry.AddThenGet | tests/test_module.py:48-53 | after adding a module file, `get` of its path returns the module at that location |
| Registry.PathFromLocationRepeatedParent | pycc/module.py:21 | for package /s/p and file /s/p/s/u.py, the path as written is "/p" and the corrected one "/p/s/u" |
| NodeFinders.NodeFinder.constructor | pycc/visitors/base.py:7-10 | a finder starts with no results |
| NodeFinders.NodeFinder.Add | pycc/visitors/base.py:17-20 | a report goes at the end of the results and nothing else changes |
| ConstantOptimizer.FirstStore | pycc/optimizers/constant.py:44-54 | the first tuple element that stores to the name, with none before it; None means no element does |
| ConstantOptimizer.ScanTuple | pycc/optimizers/constant.py:43-54 | the element loop with its `break` computes FirstStore |
| ConstantOptimizer.Counted | pycc/optimizers/constant.py:26-78 | the value one assignment or augmented assignment gives the name: the value for a Name target, the element at the first matching index for a tuple target with a tuple value, none otherwise; IndexError when the value tuple is shorter |
| ConstantOptimizer.Assignments | pycc/optimizers/constant.py:23 | the walk raises only IndexError; which values it counts, and where, is AssignmentsAtSites |
| ConstantOptimizer.IsConstantIn | pycc/optimizers/constant.py:18-24 | a module without a tree raises AttributeError; otherwise the answer over the counted values (its meaning over the tree is ConstantExactly and ConstantRaises) |
| ConstantOptimizer.CheckSitesExactly | pycc/optimizers/constant.py:23-78 | CheckSites lists, each once, exactly the Assign and AugAssign statements with no assignment statement above them |
| ConstantOptimizer.AssignmentsAtSites | pycc/optimizers/constant.py:23-78 | the check's walk counts, in visit order, at exactly the statements of CheckSites |
| ConstantOptimizer.CountedAlongOk | pycc/optimizers/constant.py:23-78 | counting along statements raises exactly when one of them raises |
| ConstantOptimizer.CountedAlongHits | pycc/optimizers/constant.py:26-54 | otherwise it yields one value per statement that counts one |
| ConstantOptimizer.CountedAlongValues | pycc/optimizers/constant.py:26-54 | each value yielded is the value counted at one of those statements |
| ConstantOptimizer.ConstantRaises | pycc/optimizers/constant.py:18-78 | `ConstantCheck(module)(name)` raises exactly when one statement it counts raises |
| ConstantOptimizer.ConstantExactly | pycc/optimizers/constant.py:18-78 | `ConstantCheck(module)(name)` is true exactly when one statement it counts gives the name a number, a string or a name, and every other statement it counts gives the name nothing |
| ConstantOptimizer.ConstantCheck.constructor | pycc/optimizers/constant.py:11-16 | the check starts at zero with no name |
| ConstantOptimizer.ConstantCheck.Call | pycc/optimizers/constant.py:18-24 | calling the check computes IsConstantIn |
| ConstantOptimizer.ConstantCheck.Visit | pycc/optimizers/constant.py:23 | the walk adds the number of counted values to the count and sets the complex flag when one of them is not simple |
| ConstantOptimizer.ConstantCheck.VisitAssign | pycc/optimizers/constant.py:26-78 | one statement adds one when it counts a value, and sets the flag for a complex value |
| ConstantOptimizer.FindConstants | pycc/optimizers/constant.py:90-94 | a module without a tree raises AttributeError (what is reported: FoundEligible, ReportsConstant, ReportsConstantElement) |
| ConstantOptimizer.FoundEligible | pycc/optimizers/constant.py:96-141 | every reported result is a well-formed assignment whose first target is a Name the check accepts, and is the node at its reported position when it has one |
| ConstantOptimizer.FoundHas | pycc/optimizers/constant.py:93-96 | what the visit of an assignment outside other assignments adds is among what the visit of the enclosing node adds |
| ConstantOptimizer.TupleFoundHas | pycc/optimizers/constant.py:121-141 | the tuple loop adds a copied assignment for every element naming a constant, of the value's element at the same index |
| ConstantOptimizer.ReportsConstant | pycc/optimizers/constant.py:96-116 | when the finder does not raise, every assignment outside other assignments whose first target is a Store Name the check accepts is reported, at its own position |
| ConstantOptimizer.ReportsConstantElement | pycc/optimizers/constant.py:118-141 | when the finder does not raise, every element of a Store Tuple target that names an accepted constant is reported as a copied single assignment of the value's element |
| ConstantOptimizer.ConstantFinder.constructor | pycc/optimizers/constant.py:84-88 | the finder starts with no results |
| ConstantOptimizer.ConstantFinder.Call | pycc/optimizers/constant.py:90-94 | calling the finder computes FindConstants |
| ConstantOptimizer.ConstantFinder.Visit | pycc/optimizers/constant.py:93 | the walk appends what Found describes, or raises its error |
| ConstantOptimizer.ConstantFinder.VisitAssign | pycc/optimizers/constant.py:96-141 | one assignment appends its results: the statement for an accepted Name target, one copied single assignment per accepted tuple element |
| ConstantOptimizer.ConstantFinder.VisitTuple | pycc/optimizers/constant.py:121-141 | the element loop appends one copied assignment per accepted element |
| ConstantOptimizer.Inline | pycc/optimizers/constant.py:152-159 | the corrected pass: a Load of one of the assignment's Name targets becomes the value, located at the assignment; other nodes keep kind, location and arity |
| ConstantOptimizer.InlineAsWritten | pycc/optimizers/constant.py:152-159 | the pass as written, whose target test is the lazy generator of IdIn |
| ConstantOptimizer.AsWrittenAgrees | pycc/optimizers/constant.py:152-159 | when the pass as written succeeds it agrees with Inline, and with Name targets only it always succeeds |
| ConstantOptimizer.InlineUnused | pycc/optimizers/constant.py:152-159 | a tree with no load of the assignment's names comes back unchanged |
| ConstantOptimizer.InlineAt | pycc/optimizers/constant.py:152-159 | inlining commutes with looking up any position of the original tree |
| ConstantOptimizer.Current | pycc/optimizers/constant.py:149 | each pass reads the reported assignment as it stands in the current tree, or the copied assignment itself |
| ConstantOptimizer.Optimized | pycc/optimizers/constant.py:162-169 | `optimize` with the corrected inliner (see "Left out"): keeps the module's location and path and gives it a tree; raises exactly when the finder does |
| ConstantOptimizer.Optimize | pycc/optimizers/constant.py:162-169 | the loop over the finder's results computes Optimized |
| ConstantOptimizer.InlineWellFormed | pycc/optimizers/constant.py:152-159 | a pass keeps a tree well-formed |
| ConstantOptimizer.InlineEachWellFormed | pycc/optimizers/constant.py:162-169 | the sequence of passes keeps the tree well-formed |
| ConstantOptimizer.InlineEachKeeps | pycc/optimizers/constant.py:162-169 | the passes keep every position of the tree, and every node other than a load keeps its kind, location and number of children |
| ConstantOptimizer.OptimizedKeeps | pycc/optimizers/constant.py:162-169 | `optimize` only rewrites loads: every position of the module's tree is still there, and every other node keeps its kind, location and number of children |
| ConstantOptimizer.InlineEachUnused | pycc/optimizers/constant.py:162-169 | passes whose assignments' names are never loaded leave the tree unchanged |
| ConstantOptimizer.OptimizedUnused | pycc/optimizers/constant.py:162-169 | a module that loads none of the reported names comes back unchanged |
| ConstantOptimizer.CurrentTargets | pycc/optimizers/constant.py:147-149 | the assignment a pass reads at its position still has Name targets when the reported one had Store Names |
| ConstantOptimizer.InlineEachAsWrittenAgrees | pycc/optimizers/constant.py:162-169 | the passes as written, when they succeed, give the corrected tree, and they succeed when every reported assignment has only Store Name targets |
| ConstantOptimizer.OptimizedAsWrittenAgrees | pycc/optimizers/constant.py:162-169 | `optimize` as written equals Optimized wherever it does not raise, when the finder raises, and whenever every reported assignment has only Store Name targets |
| ConstantOptimizer.AugmentedIsCounted | tests/optimizers/test_constant.py:19-20 | `FIVE = THREE; FIVE += TWO` makes FIVE no constant |
| ConstantOptimizer.ThreeIsConstant | tests/optimizers/test_constant.py:45-52 | THREE, assigned 3 once, is a constant |
| ConstantOptimizer.SevenIsConstant | tests/optimizers/test_constant.py:45-52 | SEVEN, assigned the name THREE once, is a constant |
| ConstantOptimizer.SevenModuleFound | tests/optimizers/test_constant.py:66-70 | the finder reports both assignments in order |
| ConstantOptimizer.InliningFlowsIntoLaterConstants | tests/optimizers/test_constant.py:73-91 | after `optimize`, `print SEVEN` prints the number 3: the first pass rewrites `SEVEN = THREE`, which the second pass then reads |
| ConstantOptimizer.ChainedIsReported | pycc/optimizers/constant.py:96-116 | in `X = o.y = 1` the finder reports the statement for X |
| ConstantOptimizer.ChainedTargetRaises | pycc/optimizers/constant.py:155 | the pass as written raises AttributeError on that module |
| ConstantOptimizer.ChainedTargetCorrected | pycc/optimizers/constant.py:155 | the corrected pass leaves that module unchanged |
| ConstantOptimizer.ChainedOptimizeRaises | pycc/optimizers/constant.py:162-169 | on that module `optimize` as written raises AttributeError, while Optimized returns the module unchanged |
| ConstantVisitors.TargetHits | pycc/visitors/constants.py:28-34 | the targets counted in one assignment: none exactly when no target is a Store Name of the name |
| ConstantVisitors.CountedTargetsSound | pycc/visitors/constants.py:16-34 | every counted position is a Store Name target of an assignment with that name, and no position is counted twice |
| ConstantVisitors.TargetHitsExactly | pycc/visitors/constants.py:28-34 | among an assignment's first targets, a position is counted exactly when it is one of them storing the name, and each once |
| ConstantVisitors.CountedTargetsExactly | pycc/visitors/constants.py:16-34 | a position is counted exactly when it is a Store Name target of the name in an assignment, so Count is the number of such targets |
| ConstantVisitors.NoAssignNoCount | pycc/visitors/constants.py:16-34 | a tree without assignments counts zero |
| ConstantVisitors.AssignCount | pycc/visitors/constants.py:26-34 | an assignment counts zero exactly when no target stores to the name |
| ConstantVisitors.AssignmentCounter.constructor | pycc/visitors/constants.py:11-14 | the counter starts at zero for its name |
| ConstantVisitors.AssignmentCounter.Increment | pycc/visitors/constants.py:21-24 | increment adds one |
| ConstantVisitors.AssignmentCounter.Visit | pycc/visitors/constants.py:16-19 | the visit adds Count to the counter and returns the new count |
| ConstantVisitors.AssignmentCounter.VisitAssign | pycc/visitors/constants.py:26-34 | one assignment adds one per matching target |
| ConstantVisitors.AssignReports | pycc/visitors/constants.py:42-48 | one assignment is reported as many times as it has candidate targets, always at its own position, and at least once exactly when some target is a candidate |
| ConstantVisitors.ReportsSound | pycc/visitors/constants.py:40-48 | every reported position is an assignment with a Store Name target assigned fewer than twice in the root |
| ConstantVisitors.ReportsComplete | pycc/visitors/constants.py:40-48 | an assignment outside other assignments is reported exactly when some target is a candidate, and as many times as it has candidate targets |
| ConstantVisitors.ConstantFinder.constructor | pycc/visitors/base.py:7-10 | the finder starts with no results for its root |
| ConstantVisitors.ConstantFinder.Visit | pycc/visitors/base.py:12-15 | the visit appends Reports and returns the results |
| ConstantVisitors.ConstantFinder.Walk | pycc/visitors/constants.py:37-48 | the walk below a position appends Reports for it |
| ConstantVisitors.ConstantFinder.VisitAssign | pycc/visitors/constants.py:40-48 | the loop over the targets appends AssignReports, counting each target with a fresh counter |
| ConstantVisitors.LastNaming | pycc/visitors/constants.py:58-67 | the last constant with a Name target of that name, with none after it; None exactly when there is none |
| ConstantVisitors.ConstantByName | pycc/visitors/constants.py:58-67 | the `reduce` gives LastNaming when it succeeds; with Name targets only it succeeds; a raise is AttributeError |
| ConstantVisitors.InlinedAgrees | pycc/visitors/constants.py:69-76 | a successful pass is the reference rewrite Substitute |
| ConstantVisitors.InlinedSucceeds | pycc/visitors/constants.py:69-76 | when every constant's targets are Names, no lookup raises and the pass succeeds |
| ConstantVisitors.SubstituteAt | pycc/visitors/constants.py:69-76 | at every position of the tree, a Load Name with a constant becomes that constant's value located at the constant; another Name is kept |
| ConstantVisitors.ConstantInliner.constructor | pycc/visitors/constants.py:54-56 | the inliner holds the constants |
| ConstantVisitors.ConstantInliner.Visit | pycc/visitors/constants.py:69-76 | the visit computes Inlined |
| ConstantVisitors.ConstantInliner.VisitName | pycc/visitors/constants.py:69-76 | `visit_Name` computes Inlined |
| ConstantVisitors.ConstantInliner.GenericVisit | pycc/visitors/constants.py:76 | `generic_visit` computes Rebuilt |
| ForList.DetectSequential | pycc/visitors/forlist.py:15-31 | the detector's answer is Sequential: a Load list or tuple, non-empty, whose element i is the number i |
| ForList.SequentialIsXRange | pycc/visitors/forlist.py:15-31 | a list is sequential exactly when it is a non-empty Load list or tuple whose numbers are those of `xrange(len)` |
| ForList.XRangeCall | pycc/visitors/forlist.py:58-67 | the new iter is a Load call of `xrange` with the one number argument k |
| ForList.XRangeCallVisited | pycc/visitors/forlist.py:71 | visiting the new iter changes nothing |
| ForList.XRangedUnlisted | pycc/visitors/forlist.py:53-71 | a tree with no listed loop comes back unchanged |
| ForList.XRangedLoop | pycc/visitors/forlist.py:53-71 | a listed loop with nothing listed below it gets `xrange(len(elts))` as its iter, located at the old iter, and nothing else changes |
| ForList.XRangedFails | pycc/visitors/forlist.py:63 | a raise of the pass is always AttributeError, from `.elts` of a listed loop's iter |
| ForList.XRangeReplacer.constructor | pycc/visitors/forlist.py:49-51 | the replacer holds the loops |
| ForList.XRangeReplacer.Visit | pycc/visitors/forlist.py:53-71 | the visit computes XRanged |
| ForList.XRangeReplacer.GenericVisit | pycc/visitors/forlist.py:71 | `generic_visit` computes XRangedKids, with the new iter of a listed loop kept as built |
| IndexLoops.LeftOf | pycc/visitors/reversedrange.py:83 | `.left` succeeds exactly on a BinOp and gives its left operand |
| IndexLoops.Sequence | pycc/visitors/rangelen.py:25 | the node the header hands to `len`: `args[0].args[0]` for `range(len(S))`, `args[0].left.args[0]` for the reversed form; a raise is AttributeError or IndexError |
| IndexLoops.DetectNoFor | pycc/visitors/rangelen.py:31-39 | on a tree without loops, detection sets `found` exactly when some `S[i]` occurs outside any other subscript |
| IndexLoops.DetectLoopFinds | pycc/visitors/rangelen.py:21-29 | for a loop without nested loops, a Name target and a Name S, detection answers whether `S[i]` occurs in it |
| IndexLoops.IndexAccessDetector.constructor | pycc/visitors/rangelen.py:11-15 | a detector starts with no loop variable, no sequence and nothing found |
| IndexLoops.IndexAccessDetector.VisitFor | pycc/visitors/rangelen.py:21-29 | `visit_For` computes Detect and returns `found` |
| IndexLoops.IndexAccessDetector.Visit | pycc/visitors/rangelen.py:17-39 | the visit computes Detect from the detector's state |
| IndexLoops.IndexAccessDetector.GenericVisit | pycc/visitors/rangelen.py:27 | `generic_visit` computes DetectIn over all children |
| IndexLoops.Matches | pycc/visitors/rangelen.py:82-88 | a match needs a recorded Name target; reading a missing or non-Name recorded node raises AttributeError |
| IndexLoops.ReplaceNoFor | pycc/visitors/rangelen.py:82-92 | without loops, the stateful visit is the reference rewrite SwapAll and keeps the state |
| IndexLoops.ReplaceLoop | pycc/visitors/rangelen.py:70-92 | a loop without nested loops, a Name target and a Name S gets the new iter, every `S[i]` in it becomes the target, and the replacer then holds that target and S |
| IndexLoops.ReplaceIterName | pycc/visitors/reversedrange.py:82-99 | visiting the new iter keeps it as built: S for the plain form, `reversed(S)` for the reversed form |
| IndexLoops.IterReplacer.constructor | pycc/visitors/rangelen.py:61-64 | a replacer starts with no loop variable and no sequence |
| IndexLoops.IterReplacer.Visit | pycc/visitors/rangelen.py:66-68 | the visit computes Replace from the replacer's state |
| IndexLoops.IterReplacer.VisitAt | pycc/visitors/rangelen.py:70-92 | one node's visit computes ReplaceAt |
| IndexLoops.IterReplacer.GenericVisit | pycc/visitors/rangelen.py:80 | `generic_visit` computes ReplaceKids |
| IndexLoops.IterReplacer.VisitIter | pycc/visitors/reversedrange.py:85-99 | the visit of the new iter computes ReplaceIter |
| RangeLenLoops.GuardAsWritten | pycc/visitors/rangelen.py:47-53 | the test as written reads the callee's `.id` and `args[0]` before checking that they exist |
| RangeLenLoops.Guard | pycc/visitors/rangelen.py:47-53 | the corrected test: a loop of another shape is not reported, and a loop of the shape hands a Name to `len` |
| RangeLenLoops.GuardAsWrittenDiffers | pycc/visitors/rangelen.py:47-53 | the two tests differ only where the written one raises and the corrected one says no |
| RangeLenLoops.GuardFinds | pycc/visitors/rangelen.py:45-55 | on a loop without nested loops and with a Name target, the test accepts exactly the `range(len(S))` loops in which `S[i]` occurs |
| RangeLenLoops.KeysLoopRaises | pycc/visitors/rangelen.py:48 | `for k in d.keys(): pass` makes the test as written raise AttributeError |
| RangeLenLoops.KeysLoopNotReported | pycc/visitors/rangelen.py:48 | the corrected test does not report that loop |
| ReversedRangeLoops.GuardAsWritten | pycc/visitors/reversedrange.py:47-63 | the test as written reads the callee's `.id`, and `args[1]` and `args[2]` before the argument count |
| ReversedRangeLoops.Guard | pycc/visitors/reversedrange.py:47-63 | the corrected test: a loop of another shape is not reported, and a loop of the shape hands a Name to `len` |
| ReversedRangeLoops.WrittenHeaderShape | pycc/visitors/reversedrange.py:47-62 | the header checks as written pass exactly on loops over `range(len(S) - 1, -1, -1)` with a Name S |
| ReversedRangeLoops.GuardAsWrittenDiffers | pycc/visitors/reversedrange.py:47-63 | the two tests differ only where the written one raises and the corrected one says no |
| ReversedRangeLoops.GuardFinds | pycc/visitors/reversedrange.py:45-65 | on a loop without nested loops and with a Name target, the test accepts exactly the `range(len(S) - 1, -1, -1)` loops in which `S[i]` occurs |
| ReversedRangeLoops.KeysLoopRaises | pycc/visitors/reversedrange.py:48 | `for k in d.keys(): pass` makes the test as written raise AttributeError |
| ReversedRangeLoops.KeysLoopNotReported | pycc/visitors/reversedrange.py:48 | the corrected test does not report that loop |
| ReversedRangeLoops.ShortRangeLoopRaises | pycc/visitors/reversedrange.py:51-54 | `for i in range(len(S) - 1): pass` makes the test as written raise IndexError |
| ReversedRangeLoops.ShortRangeLoopNotReported | pycc/visitors/reversedrange.py:51-54 | the corrected test does not report that loop |
| LoopFinders.Accepts | pycc/visitors/forlist.py:39-41 | the list finder accepts exactly the loops ForList.Guard accepts; the index finders use the corrected tests |
| LoopFinders.ReportedMeans | pycc/visitors/rangelen.py:45-55 | a reported position holds a loop the test accepts, reached without passing through another loop |
| LoopFinders.ReportedFrom | pycc/visitors/rangelen.py:45-55 | every such loop is a reported position |
| LoopFinders.LoopsSound | pycc/visitors/rangelen.py:45-55 | every reported loop is a loop the finder's test accepts, reached without passing through another loop |
| LoopFinders.LoopsComplete | pycc/visitors/rangelen.py:45-55 | every accepted loop not inside another loop is reported when the walk does not raise |
| LoopFinders.LoopFinder.constructor | pycc/visitors/base.py:7-10 | a finder starts with no results for its root |
| LoopFinders.LoopFinder.Visit | pycc/visitors/base.py:12-15 | the visit appends what Loops reports and returns the results, or raises Loops' error |
| LoopFinders.LoopFinder.Walk | pycc/visitors/forlist.py:34-43 | the walk appends Loops for a position; a loop is tested and not entered |
| LoopFinders.LoopFinder.VisitFor | pycc/visitors/forlist.py:37-43 | `visit_For` adds the loop exactly when the test accepts it, or raises the test's error |

## Left out

- Identity and aliasing. Python mutates shared node objects in place: `copy_location` on the node the inliner returns, `node.iter =` in the replacers, the `parent` attributes. The model rebuilds trees as values and identifies a node by its position, so the effect of one alias being changed through another is not modelled.
- ConstantOptimizer.Current: `optimize` updates the reported statements in place. The model re-reads each reported statement at its position in the current tree. A tuple element's copied assignment has no position and is used as reported.
- ConstantVisitors.ConstantInliner: the constants are read as they were when the pass starts. A constant rewritten earlier in the same pass is not seen rewritten.
- `Registry.Package` stores its modules as values. A module's tree changed later is not changed in the registry.
- The Load/Store context and the BinOp operator are fields of a node's kind, not shared singleton nodes. Locations are opaque values that are only copied.
- Scope.NameEq: an operand whose class defines its own `__eq__`, other than Scope, is not modelled; Python would let that method decide the comparison.
- References.AddSiblingReferences: in Python 2 the context and operator nodes are children too, so the source links them as siblings. A BinOp's `left.next` is its operator node, and an Attribute's `value.next` and a Subscript's `slice.next` are the context node. The model has no such nodes: `left.next` is `right`, and `value.next` and `slice.next` are None. The same holds wherever a context or operator sits among the children (a Tuple's last element, an AugAssign's target and value, a Compare's operands).
- References.AddParentReferences: the shared context and operator objects also get `parent`, `previous` and `next` attributes, overwritten at each use. They are not modelled. The attributes of every other node are.
- `os.path.realpath` and all disk and process I/O are left out: locations are taken as already resolved.
- `pycc/asttools/visitor.py`, the command-line tools, `compiler.py`, `parse.py` and `loader.py` are not part of this model. The core is given trees that `ast.parse` produced, as `WellFormed` nodes.
- `references.copy_location` and `references.get_top_node` are imported or tested, but `pycc/asttools/references.py` does not define them. CopyLocation follows the test; get_top_node is not modelled.
- Hash values are not modelled. Equal hash keys stand for equal hashes.
- `Scope.__iter__`, `Package.modules`, the `ScopeType` and `NameSource` iterators and every `__repr__` are not modelled. They only wrap or format what is modelled.
- Scope.NameNodes: it is stated as a multiset of what is yielded. The order of the items is not stated.
- Float, long and complex literals are not distinguished from other numbers. Every kind the code never inspects, a set literal among them, is `Other`.
- The index-loop replacers are applied by the command line to the whole module, so they rewrite every loop. That is modelled as written. The finders' result only decides whether the command line runs them.
- The detectors and replacers raise on a nested loop or a loop of another shape. That is modelled as written and not corrected.
- ConstantOptimizer.Optimized: it runs the corrected inliner. When a reported assignment has a target that is not a Name, as in `X = o.y = 1`, the source raises AttributeError at the first load the pass meets, and Optimized returns the rewritten module instead. OptimizedAsWritten is the pipeline as written; OptimizedAsWrittenAgrees and ChainedOptimizeRaises relate the two. Optimize computes Optimized and carries the same difference.
- Registry.Package.Add: it stores the module under the path the corrected PathFromLocation gives. The source splits the location at every occurrence of the package's parent directory, so for package /s/p the file /s/p/s/u.py is stored at "/p", over the package's own `__init__` entry, where the model stores it at "/p/s/u". PathFromLocationAsWritten and PathFromLocationRepeatedParent model the split as written.
- LoopFinders.Accepts: it uses the corrected tests of RangeLenLoops and ReversedRangeLoops, not the tests as written.

## Findings

| source | as written | input that shows it | evidently intended | confidence | as-written member | corrected member |
|---|---|---|---|---|---|---|
| pycc/module.py:21 | `location.split(parent)[1]` splits at every occurrence of the package's parent directory | package /s/p, file /s/p/s/u.py gives "/p" | the text after the first occurrence, "/p/s/u" | not executed | Registry.PathFromLocationRepeatedParent | Registry.PathFromLocation |
| pycc/optimizers/constant.py:155 | `node.id in (t.id for t in targets)` reads `.id` of every target until a match | `X = o.y = 1` then any other load, such as `o`, raises AttributeError | only Name targets are compared, and the module is left unchanged | not executed | ConstantOptimizer.ChainedTargetRaises | ConstantOptimizer.Inline |
| pycc/visitors/rangelen.py:48 | `node.iter.func.id` is read before anything says the callee is a Name | `for k in d.keys(): pass` raises AttributeError | a loop over another kind of call is not reported | not executed | RangeLenLoops.KeysLoopRaises | RangeLenLoops.Guard |
| pycc/visitors/reversedrange.py:48 | `node.iter.func.id` is read before anything says the callee is a Name | `for k in d.keys(): pass` raises AttributeError | a loop over another kind of call is not reported | not executed | ReversedRangeLoops.KeysLoopRaises | ReversedRangeLoops.Guard |
| pycc/visitors/reversedrange.py:51-54 | `args[1]` and `args[2]` are read before `len(node.iter.args) == 3` is checked | `for i in range(len(S) - 1): pass` raises IndexError | a range with fewer arguments is not reported | not executed | ReversedRangeLoops.ShortRangeLoopRaises | ReversedRangeLoops.Guard |
