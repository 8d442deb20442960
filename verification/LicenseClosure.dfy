/**
 The walk of `check-enterprise-license.py` over the module tree of the Rust
 sources: which files are reachable from enterprise-gated declarations, and when
 these are the files reachable only through such declarations. Source files are
 given as tokenised lines, and the file tree as a finite map.
 */
module LicenseClosure {
  import opened Option

  // ---------- Declarations in a source file ----------

  /** What is left of a line after its leading attributes. */
  datatype Rest = ModDecl(name: string) | Blank | Comment | Code

  /** A line: for each leading attribute whether it requires the enterprise feature, and the rest. */
  datatype Line = Line(attributes: seq<bool>, rest: Rest)

  datatype Decl = Decl(name: string, gated: bool)

  /** The line leaves the attributes before it in force. */
  predicate Transparent(line: Line) {
    line.rest.Blank? || line.rest.Comment?
  }

  /** An attribute in force at line `i`: on the line itself, or above it with only blanks and comments between. */
  ghost predicate GatedAt(lines: seq<Line>, i: nat)
    requires i < |lines|
  {
    exists j :: 0 <= j <= i && true in lines[j].attributes && forall k :: j <= k < i ==> Transparent(lines[k])
  }

  /** The declarations of the lines, in order, each gated exactly when an enterprise attribute is in force. */
  ghost function Declared(lines: seq<Line>, n: nat): seq<Decl>
    requires n <= |lines|
  {
    if n == 0 then []
    else
      Declared(lines, n - 1) +
      (if lines[n - 1].rest.ModDecl? then [Decl(lines[n - 1].rest.name, GatedAt(lines, n - 1))] else [])
  }

  /** An attribute above line `i` that is still in force there. */
  ghost predicate Carried(lines: seq<Line>, i: nat)
    requires i <= |lines|
  {
    exists j :: 0 <= j < i && true in lines[j].attributes && forall k :: j <= k < i ==> Transparent(lines[k])
  }

  lemma CarriedNext(lines: seq<Line>, i: nat)
    requires i < |lines|
    ensures GatedAt(lines, i) <==> Carried(lines, i) || true in lines[i].attributes
    ensures Carried(lines, i + 1) <==> Transparent(lines[i]) && GatedAt(lines, i)
  {
    if Carried(lines, i) {
      var j :| 0 <= j < i && true in lines[j].attributes && forall k :: j <= k < i ==> Transparent(lines[k]);
      assert 0 <= j <= i;
    }
    if Carried(lines, i + 1) {
      var j :| 0 <= j < i + 1 && true in lines[j].attributes && forall k :: j <= k < i + 1 ==> Transparent(lines[k]);
      assert Transparent(lines[i]);
    }
    if GatedAt(lines, i) && Transparent(lines[i]) {
      var j :| 0 <= j <= i && true in lines[j].attributes && forall k :: j <= k < i ==> Transparent(lines[k]);
      assert 0 <= j < i + 1;
    }
  }

  /**
   A gate, then lines without attributes, then a declaration: the gate holds exactly
   if all between are blank or comments; other code and declarations consume it.
   */
  lemma GateReachesTheNextItem(gate: Line, between: seq<Line>, name: string)
    requires true in gate.attributes && (gate.rest.Blank? || gate.rest.Comment?)
    requires forall k :: 0 <= k < |between| ==> between[k].attributes == []
    ensures var lines := [gate] + between + [Line([], ModDecl(name))];
      GatedAt(lines, |between| + 1) <==>
      forall k :: 0 <= k < |between| ==> between[k].rest.Blank? || between[k].rest.Comment?
  {
    var n := |between| + 1;
    var lines := [gate] + between + [Line([], ModDecl(name))];
    assert lines[0] == gate && lines[n] == Line([], ModDecl(name));
    assert forall k :: 0 <= k < |between| ==> lines[k + 1] == between[k];
    if forall k :: 0 <= k < |between| ==> between[k].rest.Blank? || between[k].rest.Comment? {
      forall k | 0 <= k < n ensures Transparent(lines[k]) {
        if k > 0 { assert lines[k] == between[k - 1]; }
      }
      assert true in lines[0].attributes;
    }
    assert forall m :: 0 < m <= n ==> lines[m].attributes == [];
    if GatedAt(lines, n) {
      var j :| 0 <= j <= n && true in lines[j].attributes && forall k :: j <= k < n ==> Transparent(lines[k]);
      forall k | 0 <= k < |between| ensures between[k].rest.Blank? || between[k].rest.Comment? {
        assert Transparent(lines[k + 1]);
      }
    }
  }

  /** `parse_mod_decls`: attributes accumulate until a declaration or other code consumes them. */
  method ParseModDecls(lines: seq<Line>) returns (decls: seq<Decl>)
    ensures decls == Declared(lines, |lines|)
  {
    decls := [];
    var attributes: seq<bool> := [];
    for i := 0 to |lines|
      invariant decls == Declared(lines, i)
      invariant true in attributes <==> Carried(lines, i)
    {
      CarriedNext(lines, i);
      attributes := attributes + lines[i].attributes;
      match lines[i].rest
      case ModDecl(name) =>
        decls := decls + [Decl(name, true in attributes)];
        attributes := [];
      case Code => attributes := [];
      case Blank =>
      case Comment =>
    }
  }

  // ---------- Modules and files ----------

  /** A Rust file: its directory and its name without the extension. */
  datatype Path = Path(dir: seq<string>, stem: string)

  type Tree = map<Path, seq<Line>>

  const MODULE_ROOTS := {"mod", "lib", "main"}

  /** The directory of the submodules that a file declares. */
  function ChildDir(p: Path): seq<string> {
    if p.stem in MODULE_ROOTS then p.dir else p.dir + [p.stem]
  }

  /** `resolve_module`: the file next to its siblings first, then the `mod.rs` of a directory. */
  function Resolve(tree: Tree, parent: Path, name: string): Option<Path> {
    var dir := ChildDir(parent);
    if Path(dir, name) in tree then Some(Path(dir, name))
    else if Path(dir + [name], "mod") in tree then Some(Path(dir + [name], "mod"))
    else None
  }

  /** The place of a file in the module tree, as the directories spell it. */
  function ModulePath(p: Path): seq<string> {
    p.dir + (if p.stem == "mod" || p.stem == "lib" || p.stem == "main" then [] else [p.stem])
  }

  /**
   A module declared in a file is the one right below that file in the module tree:
   the file found is its file, `name.rs` rather than `name/mod.rs` where both exist,
   and none is found only if there is none.
   */
  lemma ResolveFindsTheModule(tree: Tree, parent: Path, name: string)
    requires name !in MODULE_ROOTS
    ensures match Resolve(tree, parent, name)
      case Some(q) =>
        && q in tree && ModulePath(q) == ModulePath(parent) + [name]
        && (Path(ModulePath(parent), name) in tree ==> q.stem == name)
        && (Path(ModulePath(parent), name) !in tree ==> q.stem == "mod")
      case None =>
        forall q :: q in tree && ModulePath(q) == ModulePath(parent) + [name] ==> q.stem == "lib" || q.stem == "main"
  {
    var above := ModulePath(parent);
    assert ChildDir(parent) == above;
    forall q | q in tree && ModulePath(q) == above + [name]
      ensures q == Path(above, name) || q.dir == above + [name]
    {
      if q.stem !in MODULE_ROOTS {
        assert q.dir == (q.dir + [q.stem])[..|q.dir|] == above;
        assert q.stem == (q.dir + [q.stem])[|q.dir|] == name;
      }
    }
  }

  /** A declaration to follow: the declaring file and the module name. */
  type Edge = (Path, string)

  ghost function DeclsOf(tree: Tree, p: Path): seq<Decl>
    requires p in tree
  {
    Declared(tree[p], |tree[p]|)
  }

  /** A gated declaration in one of the given files. */
  ghost predicate IsRoot(tree: Tree, files: seq<Path>, e: Edge) {
    e.0 in files && e.0 in tree && Decl(e.1, true) in DeclsOf(tree, e.0)
  }

  /** Some declaration, gated or not, in the file. */
  ghost predicate Declares(tree: Tree, p: Path, name: string) {
    p in tree && exists gated :: Decl(name, gated) in DeclsOf(tree, p)
  }

  /** The declaration `e` resolves to the file that declares `f`. */
  ghost predicate Follows(tree: Tree, e: Edge, f: Edge) {
    Resolve(tree, e.0, e.1) == Some(f.0) && Declares(tree, f.0, f.1)
  }

  /** The declaration is reached by a chain from a gated declaration, each link declared in the file before it. */
  ghost predicate Chain(tree: Tree, files: seq<Path>, edges: seq<Edge>) {
    && edges != []
    && IsRoot(tree, files, edges[0])
    && forall i :: 0 < i < |edges| ==> Follows(tree, edges[i - 1], edges[i])
  }

  ghost predicate Reached(tree: Tree, files: seq<Path>, e: Edge) {
    exists edges :: Chain(tree, files, edges) && edges[|edges| - 1] == e
  }

  /** The files behind the reached declarations. */
  ghost predicate GatedFile(tree: Tree, files: seq<Path>, p: Path) {
    exists e :: Reached(tree, files, e) && Resolve(tree, e.0, e.1) == Some(p)
  }

  lemma RootReached(tree: Tree, files: seq<Path>, e: Edge)
    requires IsRoot(tree, files, e)
    ensures Reached(tree, files, e)
  {
    assert Chain(tree, files, [e]);
    assert [e][|[e]| - 1] == e;
  }

  lemma NextReached(tree: Tree, files: seq<Path>, e: Edge, f: Edge)
    requires Reached(tree, files, e)
    requires Follows(tree, e, f)
    ensures Reached(tree, files, f)
  {
    var edges :| Chain(tree, files, edges) && edges[|edges| - 1] == e;
    var longer := edges + [f];
    forall i | 0 < i < |longer| ensures Follows(tree, longer[i - 1], longer[i]) {
      assert longer[i - 1] == edges[i - 1];
      if i < |edges| { assert Follows(tree, edges[i - 1], edges[i]); }
    }
    assert Chain(tree, files, longer) && longer[|longer| - 1] == f;
  }

  lemma ChainInit(tree: Tree, files: seq<Path>, edges: seq<Edge>)
    requires Chain(tree, files, edges) && |edges| > 1
    ensures Chain(tree, files, edges[..|edges| - 1]) && Reached(tree, files, edges[|edges| - 2])
  {
    var init := edges[..|edges| - 1];
    forall i | 0 < i < |init| ensures Follows(tree, init[i - 1], init[i]) {
      assert Follows(tree, edges[i - 1], edges[i]);
    }
    assert Chain(tree, files, init) && init[|init| - 1] == edges[|edges| - 2];
  }

  // ---------- The walk ----------

  /** Every reached declaration is still pending, or handled: followed to a gated file or noted as unresolved. */
  ghost predicate Handled(tree: Tree, gated: set<Path>, unresolved: seq<Edge>, pending: seq<Edge>, e: Edge) {
    || e in pending
    || (match Resolve(tree, e.0, e.1)
        case Some(p) => p in gated
        case None => e in unresolved)
  }

  /** What is kept: everything noted is reached, and everything reached so far is handled. */
  ghost predicate WalkInv(tree: Tree, files: seq<Path>, gated: set<Path>, unresolved: seq<Edge>, pending: seq<Edge>) {
    && gated <= tree.Keys
    && (forall e :: e in pending ==> Reached(tree, files, e))
    && (forall e :: e in unresolved ==> Reached(tree, files, e) && Resolve(tree, e.0, e.1).None?)
    && (forall p :: p in gated ==> GatedFile(tree, files, p))
    && (forall e {:trigger Handled(tree, gated, unresolved, pending, e)} ::
          IsRoot(tree, files, e) ==> Handled(tree, gated, unresolved, pending, e))
    && (forall p, name :: p in gated && Declares(tree, p, name) ==>
          Handled(tree, gated, unresolved, pending, (p, name)))
  }

  /** When nothing is pending, every chain has been followed to its end. */
  lemma {:induction false} ChainHandled(
    tree: Tree, files: seq<Path>, gated: set<Path>, unresolved: seq<Edge>, edges: seq<Edge>)
    requires WalkInv(tree, files, gated, unresolved, []) && Chain(tree, files, edges)
    ensures Handled(tree, gated, unresolved, [], edges[|edges| - 1])
    decreases |edges|
  {
    if |edges| == 1 {
    } else {
      var init, last := edges[..|edges| - 1], edges[|edges| - 1];
      ChainInit(tree, files, edges);
      ChainHandled(tree, files, gated, unresolved, init);
      var prev := init[|init| - 1];
      assert Follows(tree, prev, last);
      assert last == (last.0, last.1);
    }
  }

  lemma WalkComplete(tree: Tree, files: seq<Path>, gated: set<Path>, unresolved: seq<Edge>)
    requires WalkInv(tree, files, gated, unresolved, [])
    ensures forall p :: p in gated <==> GatedFile(tree, files, p)
    ensures forall e :: e in unresolved <==> Reached(tree, files, e) && Resolve(tree, e.0, e.1).None?
  {
    forall e | Reached(tree, files, e) ensures Handled(tree, gated, unresolved, [], e) {
      var edges :| Chain(tree, files, edges) && edges[|edges| - 1] == e;
      ChainHandled(tree, files, gated, unresolved, edges);
    }
  }

  lemma NotedUnresolved(
    tree: Tree, files: seq<Path>, gated: set<Path>, unresolved: seq<Edge>, init: seq<Edge>, e: Edge)
    requires WalkInv(tree, files, gated, unresolved, init + [e]) && Resolve(tree, e.0, e.1).None?
    ensures WalkInv(tree, files, gated, unresolved + [e], init)
  {
    assert e in init + [e];
    forall f | Handled(tree, gated, unresolved, init + [e], f) ensures Handled(tree, gated, unresolved + [e], init, f) {
    }
  }

  lemma AlreadyGated(
    tree: Tree, files: seq<Path>, gated: set<Path>, unresolved: seq<Edge>, init: seq<Edge>, e: Edge)
    requires WalkInv(tree, files, gated, unresolved, init + [e])
    requires Resolve(tree, e.0, e.1).Some? && Resolve(tree, e.0, e.1).value in gated
    ensures WalkInv(tree, files, gated, unresolved, init)
  {
    forall f | Handled(tree, gated, unresolved, init + [e], f) ensures Handled(tree, gated, unresolved, init, f) {
    }
  }

  lemma NewlyGated(
    tree: Tree, files: seq<Path>, gated: set<Path>, unresolved: seq<Edge>, init: seq<Edge>, e: Edge,
    p: Path, children: seq<Edge>)
    requires WalkInv(tree, files, gated, unresolved, init + [e]) && Resolve(tree, e.0, e.1) == Some(p)
    requires forall f :: f in children <==> f.0 == p && Declares(tree, p, f.1)
    ensures WalkInv(tree, files, gated + {p}, unresolved, init + children)
  {
    assert e in init + [e];
    forall f | f in children ensures Reached(tree, files, f) { NextReached(tree, files, e, f); }
    forall f | Handled(tree, gated, unresolved, init + [e], f)
      ensures Handled(tree, gated + {p}, unresolved, init + children, f)
    {
    }
    forall name | Declares(tree, p, name) ensures Handled(tree, gated + {p}, unresolved, init + children, (p, name)) {
      assert (p, name) in children;
    }
    assert GatedFile(tree, files, p);
  }

  /** The gated declarations of the given files, and all declarations of one file, as edges. */
  method Roots(tree: Tree, files: seq<Path>) returns (pending: seq<Edge>)
    requires forall p :: p in files ==> p in tree
    ensures forall e :: e in pending <==> IsRoot(tree, files, e)
  {
    pending := [];
    for i := 0 to |files|
      invariant forall e :: e in pending <==> IsRoot(tree, files[..i], e)
    {
      var path := files[i];
      assert path in files;
      var decls := ParseModDecls(tree[path]);
      var found: seq<Edge> := [];
      for k := 0 to |decls|
        invariant forall e :: e in found <==> e.0 == path && Decl(e.1, true) in decls[..k]
      {
        assert decls[..k + 1] == decls[..k] + [decls[k]];
        if decls[k].gated {
          found := found + [(path, decls[k].name)];
        }
      }
      assert decls[..|decls|] == decls;
      assert files[..i + 1] == files[..i] + [path];
      pending := pending + found;
    }
    assert files[..|files|] == files;
  }

  method ChildEdges(tree: Tree, path: Path) returns (children: seq<Edge>)
    requires path in tree
    ensures forall e :: e in children <==> e.0 == path && Declares(tree, path, e.1)
  {
    var decls := ParseModDecls(tree[path]);
    children := [];
    for k := 0 to |decls|
      invariant forall e :: e in children <==> e.0 == path && exists gated :: Decl(e.1, gated) in decls[..k]
    {
      assert decls[..k + 1] == decls[..k] + [decls[k]];
      assert decls[k] == Decl(decls[k].name, decls[k].gated);
      children := children + [(path, decls[k].name)];
    }
    assert decls[..|decls|] == decls;
  }

  /** One turn of the loop: it shortens the pending list, or gates one more file of the tree. */
  method Visit(tree: Tree, ghost files: seq<Path>, gated: set<Path>, unresolved: seq<Edge>, pending: seq<Edge>)
    returns (gated': set<Path>, unresolved': seq<Edge>, pending': seq<Edge>)
    requires WalkInv(tree, files, gated, unresolved, pending) && pending != []
    ensures WalkInv(tree, files, gated', unresolved', pending')
    ensures (gated' == gated && |pending'| < |pending|) || (gated < gated' && gated' <= tree.Keys)
  {
    var e, init := pending[|pending| - 1], pending[..|pending| - 1];
    assert pending == init + [e];
    var target := Resolve(tree, e.0, e.1);
    if target.None? {
      NotedUnresolved(tree, files, gated, unresolved, init, e);
      return gated, unresolved + [e], init;
    }
    if target.value in gated {
      AlreadyGated(tree, files, gated, unresolved, init, e);
      return gated, unresolved, init;
    }
    var children := ChildEdges(tree, target.value);
    NewlyGated(tree, files, gated, unresolved, init, e, target.value, children);
    return gated + {target.value}, unresolved, init + children;
  }

  lemma WalkStarts(tree: Tree, files: seq<Path>, pending: seq<Edge>)
    requires forall e {:trigger e in pending} :: e in pending <==> IsRoot(tree, files, e)
    ensures WalkInv(tree, files, {}, [], pending)
  {
    forall e | e in pending ensures Reached(tree, files, e) { RootReached(tree, files, e); }
  }

  /**
   `collect_gated_files`. The walk ends for every module graph, cycles included.
   It returns exactly the files behind the declarations reached from gated ones,
   and notes exactly the reached declarations that resolve to no file.
   */
  method CollectGatedFiles(tree: Tree, files: seq<Path>) returns (gated: set<Path>, unresolved: seq<Edge>)
    requires forall p :: p in files ==> p in tree
    ensures forall p :: p in gated <==> GatedFile(tree, files, p)
    ensures forall e :: e in unresolved <==> Reached(tree, files, e) && Resolve(tree, e.0, e.1).None?
  {
    var pending := Roots(tree, files);
    gated, unresolved := {}, [];
    WalkStarts(tree, files, pending);
    while pending != []
      invariant WalkInv(tree, files, gated, unresolved, pending)
      decreases tree.Keys - gated, |pending|
    {
      gated, unresolved, pending := Visit(tree, files, gated, unresolved, pending);
    }
    WalkComplete(tree, files, gated, unresolved);
  }

  // ---------- Reachable only through gates ----------

  /** An ungated declaration in `p` resolves to `q`. */
  ghost predicate OpenLink(tree: Tree, p: Path, q: Path) {
    p in tree && exists name :: Decl(name, false) in DeclsOf(tree, p) && Resolve(tree, p, name) == Some(q)
  }

  /** A declaration in `p`, gated or not, resolves to `q`. */
  ghost predicate Link(tree: Tree, p: Path, q: Path) {
    exists name :: Declares(tree, p, name) && Resolve(tree, p, name) == Some(q)
  }

  /** Files from a crate root on, each declared by the one before it. */
  ghost predicate IsPath(tree: Tree, roots: set<Path>, files: seq<Path>) {
    && files != [] && files[0] in roots
    && forall i :: 0 < i < |files| ==> Link(tree, files[i - 1], files[i])
  }

  ghost predicate IsOpenPath(tree: Tree, roots: set<Path>, files: seq<Path>) {
    && files != [] && files[0] in roots
    && forall i :: 0 < i < |files| ==> OpenLink(tree, files[i - 1], files[i])
  }

  /** Part of some crate. */
  ghost predicate Compiled(tree: Tree, roots: set<Path>, p: Path) {
    exists path :: IsPath(tree, roots, path) && path[|path| - 1] == p
  }

  /** Part of some crate even without the enterprise feature. */
  ghost predicate Open(tree: Tree, roots: set<Path>, p: Path) {
    exists path :: IsOpenPath(tree, roots, path) && path[|path| - 1] == p
  }

  lemma OpenRoot(tree: Tree, roots: set<Path>, p: Path)
    requires p in roots
    ensures Open(tree, roots, p)
  {
    assert IsOpenPath(tree, roots, [p]) && [p][|[p]| - 1] == p;
  }

  lemma OpenNext(tree: Tree, roots: set<Path>, p: Path, q: Path)
    requires Open(tree, roots, p) && OpenLink(tree, p, q)
    ensures Open(tree, roots, q)
  {
    var path :| IsOpenPath(tree, roots, path) && path[|path| - 1] == p;
    var longer := path + [q];
    forall i | 0 < i < |longer| ensures OpenLink(tree, longer[i - 1], longer[i]) {
      if i < |path| { assert OpenLink(tree, path[i - 1], path[i]); }
    }
    assert IsOpenPath(tree, roots, longer) && longer[|longer| - 1] == q;
  }

  /** A link leads out of an open file to an open one, or through a gate, and behind a gate it stays. */
  lemma LinkIsOpenOrGated(tree: Tree, files: seq<Path>, roots: set<Path>, p: Path, q: Path)
    requires Open(tree, roots, p) || GatedFile(tree, files, p)
    requires Open(tree, roots, p) ==> p in files
    requires Link(tree, p, q)
    ensures Open(tree, roots, q) || GatedFile(tree, files, q)
  {
    var name :| Declares(tree, p, name) && Resolve(tree, p, name) == Some(q);
    if GatedFile(tree, files, p) {
      var e :| Reached(tree, files, e) && Resolve(tree, e.0, e.1) == Some(p);
      NextReached(tree, files, e, (p, name));
    } else if Decl(name, false) in DeclsOf(tree, p) {
      OpenNext(tree, roots, p, q);
    } else {
      var gated :| Decl(name, gated) in DeclsOf(tree, p);
      RootReached(tree, files, (p, name));
    }
  }

  lemma PathInit(tree: Tree, roots: set<Path>, path: seq<Path>)
    requires IsPath(tree, roots, path) && |path| > 1
    ensures var n := |path| - 1; IsPath(tree, roots, path[..n]) && Link(tree, path[n - 1], path[n])
  {
    var init := path[..|path| - 1];
    forall i | 0 < i < |init| ensures Link(tree, init[i - 1], init[i]) {
      assert Link(tree, path[i - 1], path[i]);
    }
  }

  lemma OpenPathInit(tree: Tree, roots: set<Path>, path: seq<Path>)
    requires IsOpenPath(tree, roots, path) && |path| > 1
    ensures var n := |path| - 1;
      IsOpenPath(tree, roots, path[..n]) && Open(tree, roots, path[n - 1]) && OpenLink(tree, path[n - 1], path[n])
  {
    var init := path[..|path| - 1];
    forall i | 0 < i < |init| ensures OpenLink(tree, init[i - 1], init[i]) {
      assert OpenLink(tree, path[i - 1], path[i]);
    }
    assert IsOpenPath(tree, roots, init) && init[|init| - 1] == path[|path| - 2];
  }

  lemma {:induction false} PathIsOpenOrGated(tree: Tree, files: seq<Path>, roots: set<Path>, path: seq<Path>)
    requires forall p :: Open(tree, roots, p) ==> p in files
    requires IsPath(tree, roots, path)
    ensures Open(tree, roots, path[|path| - 1]) || GatedFile(tree, files, path[|path| - 1])
    decreases |path|
  {
    var n := |path| - 1;
    if n == 0 {
      OpenRoot(tree, roots, path[0]);
    } else {
      PathInit(tree, roots, path);
      PathIsOpenOrGated(tree, files, roots, path[..n]);
      LinkIsOpenOrGated(tree, files, roots, path[n - 1], path[n]);
    }
  }

  /**
   The walk misses nothing: if every openly reachable file was given to it, a file
   of a crate that is reachable only through gated declarations is collected.
   */
  lemma OnlyThroughGatesIsCollected(tree: Tree, files: seq<Path>, roots: set<Path>, p: Path)
    requires forall q :: Open(tree, roots, q) ==> q in files
    requires Compiled(tree, roots, p) && !Open(tree, roots, p)
    ensures GatedFile(tree, files, p)
  {
    var path :| IsPath(tree, roots, path) && path[|path| - 1] == p;
    PathIsOpenOrGated(tree, files, roots, path);
  }

  /**
   No way around the gates: no crate root is among the collected files, and no
   ungated declaration leads from an openly reachable file outside them into them.
   */
  ghost predicate NoBypass(tree: Tree, files: seq<Path>, roots: set<Path>) {
    && (forall r :: r in roots ==> !GatedFile(tree, files, r))
    && (forall p, q :: Open(tree, roots, p) && !GatedFile(tree, files, p) && OpenLink(tree, p, q) ==>
          !GatedFile(tree, files, q))
  }

  lemma {:induction false} OpenPathStaysOutside(tree: Tree, files: seq<Path>, roots: set<Path>, path: seq<Path>)
    requires NoBypass(tree, files, roots) && IsOpenPath(tree, roots, path)
    ensures !GatedFile(tree, files, path[|path| - 1])
    decreases |path|
  {
    var n := |path| - 1;
    if n == 0 {
    } else {
      OpenPathInit(tree, roots, path);
      OpenPathStaysOutside(tree, files, roots, path[..n]);
    }
  }

  /**
   Exactly when the collected files of the crates are those reachable only through
   gated declarations, as the head of the script has it.
   */
  lemma CollectedIsOnlyThroughGates(tree: Tree, files: seq<Path>, roots: set<Path>)
    requires forall q :: Open(tree, roots, q) ==> q in files
    ensures (forall p :: Compiled(tree, roots, p) ==> (GatedFile(tree, files, p) <==> !Open(tree, roots, p))) <==>
            NoBypass(tree, files, roots)
  {
    if NoBypass(tree, files, roots) {
      forall p | Compiled(tree, roots, p) ensures GatedFile(tree, files, p) <==> !Open(tree, roots, p) {
        if Open(tree, roots, p) {
          var path :| IsOpenPath(tree, roots, path) && path[|path| - 1] == p;
          OpenPathStaysOutside(tree, files, roots, path);
        } else {
          OnlyThroughGatesIsCollected(tree, files, roots, p);
        }
      }
    }
    if forall p :: Compiled(tree, roots, p) ==> (GatedFile(tree, files, p) <==> !Open(tree, roots, p)) {
      forall r | r in roots ensures !GatedFile(tree, files, r) {
        OpenRoot(tree, roots, r);
        OpenIsCompiled(tree, roots, r);
      }
      forall p, q | Open(tree, roots, p) && OpenLink(tree, p, q) ensures !GatedFile(tree, files, q) {
        OpenNext(tree, roots, p, q);
        OpenIsCompiled(tree, roots, q);
      }
    }
  }

  lemma OpenIsCompiled(tree: Tree, roots: set<Path>, p: Path)
    requires Open(tree, roots, p)
    ensures Compiled(tree, roots, p)
  {
    var path :| IsOpenPath(tree, roots, path) && path[|path| - 1] == p;
    forall i | 0 < i < |path| ensures Link(tree, path[i - 1], path[i]) {
      assert OpenLink(tree, path[i - 1], path[i]);
      var name :| Decl(name, false) in DeclsOf(tree, path[i - 1]) && Resolve(tree, path[i - 1], name) == Some(path[i]);
      assert Declares(tree, path[i - 1], name);
    }
    assert IsPath(tree, roots, path);
  }

  /** The declaration `d` of the file `p` resolves to `q`. */
  ghost predicate DeclaredBy(tree: Tree, p: Path, d: Decl, q: Path) {
    p in tree && d in DeclsOf(tree, p) && Resolve(tree, p, d.name) == Some(q)
  }

  /** What can be read off the sources: no file has two declarations, and no crate root has any. */
  ghost predicate DeclaredOnce(tree: Tree, roots: set<Path>) {
    && (forall p, d, p', d', q :: DeclaredBy(tree, p, d, q) && DeclaredBy(tree, p', d', q) ==> p == p' && d == d')
    && (forall p, d, r :: DeclaredBy(tree, p, d, r) ==> r !in roots)
  }

  /** A collected file is declared behind a gate, or in a collected file. */
  lemma GatedBy(tree: Tree, files: seq<Path>, q: Path) returns (p: Path, d: Decl)
    requires GatedFile(tree, files, q)
    ensures DeclaredBy(tree, p, d, q) && (d.gated || GatedFile(tree, files, p))
  {
    var e :| Reached(tree, files, e) && Resolve(tree, e.0, e.1) == Some(q);
    var edges :| Chain(tree, files, edges) && edges[|edges| - 1] == e;
    p := e.0;
    var n := |edges| - 1;
    if n == 0 {
      d := Decl(e.1, true);
    } else {
      assert Follows(tree, edges[n - 1], e);
      var gated :| Decl(e.1, gated) in DeclsOf(tree, e.0);
      d := Decl(e.1, gated);
      ChainInit(tree, files, edges);
      assert Reached(tree, files, edges[n - 1]);
    }
  }

  /** With one declaration for each file, and none for the crate roots, there is no way around the gates. */
  lemma DeclaredOnceIsEnough(tree: Tree, files: seq<Path>, roots: set<Path>)
    requires DeclaredOnce(tree, roots)
    ensures NoBypass(tree, files, roots)
  {
    forall r | GatedFile(tree, files, r) ensures r !in roots {
      var p, d := GatedBy(tree, files, r);
    }
    forall p, q | !GatedFile(tree, files, p) && OpenLink(tree, p, q) ensures !GatedFile(tree, files, q) {
      var name :| Decl(name, false) in DeclsOf(tree, p) && Resolve(tree, p, name) == Some(q);
      assert DeclaredBy(tree, p, Decl(name, false), q);
      if GatedFile(tree, files, q) {
        var p', d := GatedBy(tree, files, q);
        assert false;
      }
    }
  }

  const LIBRARY := Path([], "lib")
  const BINARY := Path([], "main")
  const SHARED := Path([], "a")

  /** A library that declares a module behind a gate, and a binary beside it that declares it openly. */
  const BYPASSED: Tree := map[
    LIBRARY := [Line([true], ModDecl("a"))],
    BINARY := [Line([], ModDecl("a"))],
    SHARED := []]

  /** The walk collects a file that an ungated declaration reaches too. */
  lemma OpenFileIsCollected()
    ensures var files, roots := [LIBRARY, BINARY, SHARED], {LIBRARY, BINARY};
      && GatedFile(BYPASSED, files, SHARED) && Open(BYPASSED, roots, SHARED)
      && !NoBypass(BYPASSED, files, roots)
  {
    var files, roots := [LIBRARY, BINARY, SHARED], {LIBRARY, BINARY};
    var library, binary := BYPASSED[LIBRARY], BYPASSED[BINARY];
    assert true in library[0].attributes;
    assert GatedAt(library, 0);
    assert Declared(library, 0) == [] && DeclsOf(BYPASSED, LIBRARY) == [Decl("a", true)];
    RootReached(BYPASSED, files, (LIBRARY, "a"));
    assert Resolve(BYPASSED, LIBRARY, "a") == Some(SHARED);
    assert !GatedAt(binary, 0);
    assert Declared(binary, 0) == [] && DeclsOf(BYPASSED, BINARY) == [Decl("a", false)];
    assert Resolve(BYPASSED, BINARY, "a") == Some(SHARED);
    OpenRoot(BYPASSED, roots, BINARY);
    OpenNext(BYPASSED, roots, BINARY, SHARED);
    if NoBypass(BYPASSED, files, roots) {
      var path :| IsOpenPath(BYPASSED, roots, path) && path[|path| - 1] == SHARED;
      OpenPathStaysOutside(BYPASSED, files, roots, path);
    }
  }
}
