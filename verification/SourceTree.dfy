/**
 * Three ways of finding the build inputs under a list of roots: a worklist over all
 * roots that refuses anything it meets twice, a worklist per root that does not, and
 * a filter of a flat archive by name. They agree, whatever order directories are
 * listed in, up to the exact differences proved below.
 */
module SourceTree {
  import opened Common
  import opened Utf8

  const SLASH: CodePoint := 0x2F
  const BACKSLASH: CodePoint := 0x5C

  type Path = seq<Text>

  datatype Node = File(body: seq<Byte>) | Dir | Link | Special

  /** A package's files by path relative to its root; `[]` is the package directory itself. */
  type Tree = map<Path, Node>

  predicate ValidName(n: Text) {
    n != [] && SLASH !in n
  }

  predicate HasParent(tree: Tree, p: Path) {
    p == [] || (ValidName(p[|p| - 1]) && p[..|p| - 1] in tree && tree[p[..|p| - 1]].Dir?)
  }

  /** Everything but the package directory lies in a directory and has a name. */
  predicate ValidTree(tree: Tree) {
    && [] in tree && tree[[]].Dir?
    && forall p {:trigger HasParent(tree, p)} :: p in tree ==> HasParent(tree, p)
  }

  type Listing = Path -> seq<Text>

  predicate Once(names: seq<Text>) {
    forall i, j :: 0 <= i < j < |names| ==> names[i] != names[j]
  }

  ghost predicate ListsDir(list: Listing, tree: Tree, p: Path) {
    Once(list(p)) && forall n :: n in list(p) <==> p + [n] in tree
  }

  /** `list` gives the entries of every directory, each once, in any order. */
  ghost predicate ListsTree(list: Listing, tree: Tree) {
    forall p {:trigger ListsDir(list, tree, p)} :: p in tree && tree[p].Dir? ==> ListsDir(list, tree, p)
  }

  type Digest = seq<Byte> -> Text

  // ----- names -----

  /** Components joined by slashes: a relative POSIX name. */
  function Join(p: Path): Text {
    if p == [] then [] else if |p| == 1 then p[0] else p[0] + ([SLASH] + Join(p[1..]))
  }

  /** Backslashes become slashes, on every host. */
  function Slashed(t: Text): Text {
    seq(|t|, i requires 0 <= i < |t| => if t[i] == BACKSLASH then SLASH else t[i])
  }

  function RustName(p: Path): Text {
    Slashed(Join(p))
  }

  predicate ValidPath(p: Path) {
    forall i :: 0 <= i < |p| ==> ValidName(p[i])
  }

  lemma {:induction false} TreePaths(tree: Tree, p: Path)
    requires ValidTree(tree) && p in tree
    ensures ValidPath(p)
  {
    assert HasParent(tree, p);
    if p != [] {
      TreePaths(tree, p[..|p| - 1]);
    }
  }

  /** What has something below it is a directory, and the entry on the way is there. */
  lemma {:induction false} Below(tree: Tree, p: Path, q: Path)
    requires ValidTree(tree) && q in tree
    ensures p < q ==> p in tree && tree[p].Dir? && p + [q[|p|]] in tree
    decreases |q|
  {
    if p < q {
      assert HasParent(tree, q);
      var parent := q[..|q| - 1];
      if p == parent {
        assert q == p + [q[|p|]];
      } else {
        assert p < parent && parent[|p|] == q[|p|];
        Below(tree, p, parent);
      }
    }
  }

  lemma FirstSlash(a: Text, x: Text, b: Text, y: Text)
    requires SLASH !in a && SLASH !in b
    ensures a + ([SLASH] + x) <= b + ([SLASH] + y) <==> a == b && x <= y
    ensures a + ([SLASH] + x) == b + ([SLASH] + y) <==> a == b && x == y
    ensures !(a + ([SLASH] + x) <= b)
  {
    var s, t := a + ([SLASH] + x), b + ([SLASH] + y);
    assert s[|a|] == SLASH && t[|b|] == SLASH;
    assert s[|a| + 1..] == x && t[|b| + 1..] == y;
    assert forall i :: 0 <= i < |a| ==> s[i] == a[i] && a[i] != SLASH;
    assert forall i :: 0 <= i < |b| ==> t[i] == b[i] && b[i] != SLASH;
    if s <= t {
      assert |a| == |b|;
      assert a == s[..|a|] && b == t[..|b|];
      assert x <= y;
    }
  }

  /** A name starts with a root and a slash exactly when its path is below that root. */
  lemma {:induction false} NamePrefix(r: Path, p: Path)
    requires ValidPath(r) && ValidPath(p) && r != [] && p != []
    ensures Join(r) + [SLASH] <= Join(p) <==> r < p
    ensures Join(r) == Join(p) <==> r == p
    decreases |r|
  {
    if |r| == 1 && |p| == 1 {
      FirstSlash(r[0], [], p[0], []);
    } else if |r| == 1 {
      FirstSlash(r[0], [], p[0], Join(p[1..]));
      assert r < p <==> r[0] == p[0];
    } else if |p| == 1 {
      FirstSlash(r[0], Join(r[1..]), p[0], []);
      assert Join(r) + [SLASH] == r[0] + ([SLASH] + (Join(r[1..]) + [SLASH]));
      FirstSlash(r[0], Join(r[1..]) + [SLASH], p[0], []);
    } else {
      NamePrefix(r[1..], p[1..]);
      assert Join(r) + [SLASH] == r[0] + ([SLASH] + (Join(r[1..]) + [SLASH]));
      FirstSlash(r[0], Join(r[1..]) + [SLASH], p[0], Join(p[1..]));
      FirstSlash(r[0], Join(r[1..]), p[0], Join(p[1..]));
      assert r == [r[0]] + r[1..] && p == [p[0]] + p[1..];
      assert r < p <==> r[0] == p[0] && r[1..] < p[1..];
    }
  }

  // ----- what lies under the roots -----

  predicate Under(roots: seq<Path>, p: Path) {
    exists i :: 0 <= i < |roots| && roots[i] <= p
  }

  /** Every root is there, and everything under it is a file or a directory. */
  predicate Regular(tree: Tree, roots: seq<Path>) {
    && (forall i :: 0 <= i < |roots| ==> roots[i] in tree)
    && forall p :: p in tree && Under(roots, p) ==> tree[p].File? || tree[p].Dir?
  }

  predicate NonNested(roots: seq<Path>) {
    forall i, j :: 0 <= i < |roots| && 0 <= j < |roots| && i != j ==> !(roots[i] <= roots[j])
  }

  /** Distinct single names, such as the declared input roots, are never nested. */
  lemma SingleNamesNonNested(roots: seq<Path>)
    requires forall i :: 0 <= i < |roots| ==> |roots[i]| == 1
    requires forall i, j :: 0 <= i < j < |roots| ==> roots[i] != roots[j]
    ensures NonNested(roots)
  {
    forall i, j | 0 <= i < |roots| && 0 <= j < |roots| && i != j
      ensures !(roots[i] <= roots[j])
    {
      assert if i < j then roots[i] != roots[j] else roots[j] != roots[i];
    }
  }

  predicate IsInput(tree: Tree, roots: seq<Path>, p: Path) {
    p in tree && tree[p].File? && Under(roots, p)
  }

  predicate RustNamesDistinct(tree: Tree, roots: seq<Path>) {
    forall p, q :: p in tree && q in tree && IsInput(tree, roots, p) && IsInput(tree, roots, q) && p != q ==>
      RustName(p) != RustName(q)
  }

  /** `files` maps the name of every input to the digest of its body, and holds nothing else. */
  ghost predicate Reports(files: map<Text, Text>, tree: Tree, roots: seq<Path>, digest: Digest, name: Path -> Text) {
    && (forall p :: IsInput(tree, roots, p) ==> name(p) in files && files[name(p)] == digest(tree[p].body))
    && forall n :: n in files ==> exists p :: IsInput(tree, roots, p) && name(p) == n
  }

  /** How many of `ps` are prefixes of `q`. */
  function Covers(ps: seq<Path>, q: Path): nat {
    if ps == [] then 0
    else Covers(ps[..|ps| - 1], q) + if ps[|ps| - 1] <= q then 1 else 0
  }

  lemma {:induction false} CoversConcat(a: seq<Path>, b: seq<Path>, q: Path)
    ensures Covers(a + b, q) == Covers(a, q) + Covers(b, q)
    decreases |b|
  {
    if b == [] {
      assert a + b == a;
    } else {
      var n := |b| - 1;
      assert (a + b)[..|a| + n] == a + b[..n];
      CoversConcat(a, b[..n], q);
    }
  }

  lemma {:induction false} CoversUnder(ps: seq<Path>, q: Path)
    ensures Covers(ps, q) > 0 <==> Under(ps, q)
  {
    if ps != [] {
      var n := |ps| - 1;
      CoversUnder(ps[..n], q);
      if Under(ps[..n], q) {
        var i :| 0 <= i < n && ps[..n][i] <= q;
        assert ps[i] <= q;
      }
      if Under(ps, q) && !(ps[n] <= q) {
        var i :| 0 <= i < |ps| && ps[i] <= q;
        assert ps[..n][i] <= q;
      }
    }
  }

  lemma Comparable(a: Path, b: Path, q: Path)
    ensures a <= q && b <= q ==> a <= b || b <= a
  {
  }

  /** A path under two roots puts one root under the other. */
  lemma {:induction false} CoversOnce(ps: seq<Path>, q: Path)
    requires NonNested(ps)
    ensures Covers(ps, q) <= 1
  {
    if ps != [] {
      var n := |ps| - 1;
      assert forall i :: 0 <= i < n ==> ps[..n][i] == ps[i];
      CoversOnce(ps[..n], q);
      CoversUnder(ps[..n], q);
      forall i | 0 <= i < n
        ensures !(ps[i] <= q && ps[n] <= q)
      {
        Comparable(ps[i], ps[n], q);
      }
    }
  }

  lemma CoversTwice(ps: seq<Path>, i: nat, j: nat, q: Path)
    requires i < j < |ps| && ps[i] <= q && ps[j] <= q
    ensures Covers(ps, q) >= 2
  {
    var a, b := ps[..j], ps[j..];
    assert ps == a + b;
    CoversConcat(a, b, q);
    assert a[i] <= q && b[0] <= q;
    CoversUnder(a, q);
    CoversUnder(b, q);
  }

  function Children(p: Path, names: seq<Text>): seq<Path> {
    seq(|names|, i requires 0 <= i < |names| => p + [names[i]])
  }

  lemma {:induction false} CoversChildren(p: Path, names: seq<Text>, q: Path)
    requires Once(names)
    ensures Covers(Children(p, names), q) == if p < q && q[|p|] in names then 1 else 0
  {
    if names != [] {
      var n := |names| - 1;
      var last := names[n];
      assert Children(p, names)[..n] == Children(p, names[..n]);
      CoversChildren(p, names[..n], q);
      assert names == names[..n] + [last];
      assert p + [last] <= q <==> p < q && q[|p|] == last;
      assert last !in names[..n];
    }
  }

  lemma ChildrenListed(tree: Tree, list: Listing, p: Path)
    requires ListsTree(list, tree) && p in tree && tree[p].Dir?
    ensures forall c :: c in Children(p, list(p)) ==> c in tree
  {
    var names := list(p);
    assert ListsDir(list, tree, p);
    forall i | 0 <= i < |names|
      ensures Children(p, names)[i] in tree
    {
      assert names[i] in names;
    }
  }

  /** Popping a directory and pushing its entries exchanges it for what lies below it. */
  lemma ExpandDir(tree: Tree, list: Listing, rest: seq<Path>, p: Path, q: Path)
    requires ValidTree(tree) && ListsTree(list, tree) && p in tree && tree[p].Dir? && q in tree
    ensures Covers(rest + [p], q) == Covers(rest + Children(p, list(p)), q) + if q == p then 1 else 0
  {
    assert ListsDir(list, tree, p);
    CoversConcat(rest, Children(p, list(p)), q);
    CoversChildren(p, list(p), q);
    assert (rest + [p])[..|rest|] == rest;
    Below(tree, p, q);
  }

  lemma ExpandFile(tree: Tree, rest: seq<Path>, p: Path, q: Path)
    requires ValidTree(tree) && p in tree && tree[p].File? && q in tree
    ensures Covers(rest + [p], q) == Covers(rest, q) + if q == p then 1 else 0
  {
    assert (rest + [p])[..|rest|] == rest;
    Below(tree, p, q);
  }

  // ----- the worklists -----

  /** What has been visited and what is still pending make up exactly what lies under the roots. */
  predicate Balanced(tree: Tree, roots: seq<Path>, pending: seq<Path>, visited: set<Path>) {
    forall q :: q in tree ==> (if q in visited then 1 else 0) + Covers(pending, q) == Covers(roots, q)
  }

  lemma BalancedPop(tree: Tree, list: Listing, roots: seq<Path>, rest: seq<Path>, p: Path, visited: set<Path>)
    requires ValidTree(tree) && ListsTree(list, tree)
    requires Balanced(tree, roots, rest + [p], visited) && p in tree && p !in visited
    ensures tree[p].Dir? ==> Balanced(tree, roots, rest + Children(p, list(p)), visited + {p})
    ensures tree[p].File? ==> Balanced(tree, roots, rest, visited + {p})
  {
    forall q | q in tree
      ensures tree[p].Dir? ==>
                Covers(rest + [p], q) == Covers(rest + Children(p, list(p)), q) + if q == p then 1 else 0
      ensures tree[p].File? ==> Covers(rest + [p], q) == Covers(rest, q) + if q == p then 1 else 0
    {
      if tree[p].Dir? {
        ExpandDir(tree, list, rest, p, q);
      } else if tree[p].File? {
        ExpandFile(tree, rest, p, q);
      }
    }
  }

  /** A pending path is under a root, and under two of them if it was visited before. */
  lemma PendingCovered(tree: Tree, roots: seq<Path>, rest: seq<Path>, p: Path, visited: set<Path>)
    requires Balanced(tree, roots, rest + [p], visited) && p in tree
    ensures Under(roots, p)
    ensures p in visited ==> !NonNested(roots)
  {
    assert (rest + [p])[..|rest|] == rest;
    assert Covers(rest + [p], p) >= 1;
    CoversUnder(roots, p);
    if p in visited && NonNested(roots) {
      CoversOnce(roots, p);
    }
  }

  lemma VisitedCovered(tree: Tree, roots: seq<Path>, pending: seq<Path>, visited: set<Path>, p: Path)
    requires Balanced(tree, roots, pending, visited) && p in tree && p in visited
    ensures Under(roots, p)
  {
    CoversUnder(roots, p);
  }

  /** With nothing pending, the visited paths are those under the roots. */
  lemma NothingPending(tree: Tree, roots: seq<Path>, visited: set<Path>)
    requires Balanced(tree, roots, [], visited) && visited <= tree.Keys
    ensures forall q :: q in tree ==> (q in visited <==> Under(roots, q))
    ensures (forall i :: 0 <= i < |roots| ==> roots[i] in tree) ==> NonNested(roots)
  {
    forall q | q in tree
      ensures q in visited <==> Under(roots, q)
    {
      CoversUnder(roots, q);
    }
    if forall i :: 0 <= i < |roots| ==> roots[i] in tree {
      forall i, j | 0 <= i < |roots| && 0 <= j < |roots| && i != j
        ensures !(roots[i] <= roots[j])
      {
        if roots[i] <= roots[j] {
          CoversTwice(roots, if i < j then i else j, if i < j then j else i, roots[j]);
        }
      }
    }
  }

  /** What the worklist has gathered: the inputs among the visited paths, by name. */
  ghost predicate Gathered(files: map<Text, Text>, tree: Tree, visited: set<Path>, digest: Digest, name: Path -> Text) {
    && visited <= tree.Keys
    && (forall p :: p in visited ==> tree[p].File? || tree[p].Dir?)
    && (forall p :: p in visited && tree[p].File? ==> name(p) in files && files[name(p)] == digest(tree[p].body))
    && forall n :: n in files ==> exists p :: p in visited && tree[p].File? && name(p) == n
  }

  ghost predicate NamesApart(tree: Tree, visited: set<Path>) {
    visited <= tree.Keys
    && forall p, q :: p in visited && q in visited && tree[p].File? && tree[q].File? && p != q ==>
      RustName(p) != RustName(q)
  }

  lemma GatheredAll(files: map<Text, Text>, tree: Tree, roots: seq<Path>, visited: set<Path>, digest: Digest,
    name: Path -> Text)
    requires Gathered(files, tree, visited, digest, name)
    requires forall q :: q in tree ==> (q in visited <==> Under(roots, q))
    ensures Reports(files, tree, roots, digest, name)
    ensures forall p :: p in tree && Under(roots, p) ==> tree[p].File? || tree[p].Dir?
  {
    forall n | n in files
      ensures exists p :: IsInput(tree, roots, p) && name(p) == n
    {
      var p :| p in visited && tree[p].File? && name(p) == n;
      assert IsInput(tree, roots, p);
    }
  }

  lemma GatherFile(files: map<Text, Text>, tree: Tree, visited: set<Path>, digest: Digest, name: Path -> Text,
    path: Path)
    requires Gathered(files, tree, visited, digest, name) && path in tree && tree[path].File?
    requires forall q :: q in visited && tree[q].File? && name(q) == name(path) ==> q == path
    ensures Gathered(files[name(path) := digest(tree[path].body)], tree, visited + {path}, digest, name)
  {
    var files' := files[name(path) := digest(tree[path].body)];
    forall n | n in files'
      ensures exists p :: p in visited + {path} && tree[p].File? && name(p) == n
    {
      if n != name(path) {
        var p :| p in visited && tree[p].File? && name(p) == n;
        assert p in visited + {path};
      } else {
        assert path in visited + {path};
      }
    }
  }

  lemma GatherDir(files: map<Text, Text>, tree: Tree, visited: set<Path>, digest: Digest, name: Path -> Text,
    path: Path)
    requires Gathered(files, tree, visited, digest, name) && path in tree && tree[path].Dir?
    ensures Gathered(files, tree, visited + {path}, digest, name)
  {
    forall n | n in files
      ensures exists p :: p in visited + {path} && tree[p].File? && name(p) == n
    {
      var p :| p in visited && tree[p].File? && name(p) == n;
      assert p in visited + {path};
    }
  }

  lemma JoinInjective(tree: Tree, p: Path, q: Path)
    requires ValidTree(tree) && p in tree && q in tree && p != [] && q != []
    ensures Join(p) == Join(q) ==> p == q
  {
    TreePaths(tree, p);
    TreePaths(tree, q);
    NamePrefix(p, q);
  }

  lemma UnderSnoc(roots: seq<Path>, n: nat, q: Path)
    requires n < |roots|
    ensures Under(roots[..n + 1], q) <==> Under(roots[..n], q) || roots[n] <= q
    ensures Under([roots[n]], q) <==> roots[n] <= q
    ensures roots[n] <= q ==> Under(roots, q)
  {
    assert roots[..n + 1][n] == roots[n];
    assert forall i :: 0 <= i < n ==> roots[..n + 1][i] == roots[..n][i];
    assert [roots[n]][0] == roots[n];
  }

  lemma NameTaken(files: map<Text, Text>, tree: Tree, roots: seq<Path>, pending: seq<Path>, visited: set<Path>,
    digest: Digest, path: Path)
    requires Balanced(tree, roots, pending, visited) && Gathered(files, tree, visited, digest, RustName)
    requires IsInput(tree, roots, path) && RustName(path) in files && (path in visited ==> !NonNested(roots))
    ensures !NonNested(roots) || !RustNamesDistinct(tree, roots)
  {
    var p :| p in visited && tree[p].File? && RustName(p) == RustName(path);
    VisitedCovered(tree, roots, pending, visited, p);
    assert IsInput(tree, roots, p);
  }

  /** Where the Rust worklist stands after visiting `visited`. */
  ghost predicate Progress(tree: Tree, roots: seq<Path>, pending: seq<Path>, visited: set<Path>, directories: set<Path>,
                           files: map<Text, Text>, digest: Digest)
  {
    && Balanced(tree, roots, pending, visited)
    && Gathered(files, tree, visited, digest, RustName) && NamesApart(tree, visited)
    && DirectoriesKnown(tree, visited, directories)
    && PendingOk(tree, roots, pending)
  }

  /** `directories` are the directories among the visited paths. */
  ghost predicate DirectoriesKnown(tree: Tree, visited: set<Path>, directories: set<Path>) {
    visited <= tree.Keys && forall p :: p in directories <==> p in visited && tree[p].Dir?
  }

  lemma DirectoryApart(tree: Tree, visited: set<Path>, path: Path)
    requires NamesApart(tree, visited) && path in tree && tree[path].Dir?
    ensures NamesApart(tree, visited + {path})
  {
  }

  lemma DirectoryKnown(tree: Tree, visited: set<Path>, directories: set<Path>, path: Path)
    requires DirectoriesKnown(tree, visited, directories) && path in tree && tree[path].Dir?
    ensures DirectoriesKnown(tree, visited + {path}, directories + {path})
  {
  }

  /** Only roots may be missing from the tree, and a missing root is still pending. */
  ghost predicate PendingOk(tree: Tree, roots: seq<Path>, pending: seq<Path>) {
    && (forall p :: p in pending ==> p in tree || p in roots)
    && forall p :: p in roots ==> p in tree || p in pending
  }

  lemma PendingNext(tree: Tree, roots: seq<Path>, rest: seq<Path>, path: Path, kids: seq<Path>)
    requires PendingOk(tree, roots, rest + [path]) && path in tree && forall p :: p in kids ==> p in tree
    ensures PendingOk(tree, roots, rest + kids)
  {
    assert forall p :: p in rest ==> p in rest + [path];
  }

  lemma ProgressDir(tree: Tree, list: Listing, roots: seq<Path>, rest: seq<Path>, path: Path, visited: set<Path>,
                    directories: set<Path>, files: map<Text, Text>, digest: Digest)
    requires ValidTree(tree) && ListsTree(list, tree)
    requires Progress(tree, roots, rest + [path], visited, directories, files, digest)
    requires path in tree && path !in visited && tree[path].Dir?
    ensures Progress(tree, roots, rest + Children(path, list(path)), visited + {path}, directories + {path}, files,
      digest)
  {
    BalancedPop(tree, list, roots, rest, path, visited);
    GatherDir(files, tree, visited, digest, RustName, path);
    DirectoryApart(tree, visited, path);
    DirectoryKnown(tree, visited, directories, path);
    ChildrenListed(tree, list, path);
    PendingNext(tree, roots, rest, path, Children(path, list(path)));
  }

  lemma ProgressFile(tree: Tree, list: Listing, roots: seq<Path>, rest: seq<Path>, path: Path, visited: set<Path>,
                     directories: set<Path>, files: map<Text, Text>, digest: Digest)
    requires ValidTree(tree) && ListsTree(list, tree)
    requires Progress(tree, roots, rest + [path], visited, directories, files, digest)
    requires path in tree && tree[path].File? && RustName(path) !in files
    ensures path !in visited
    ensures Progress(tree, roots, rest, visited + {path}, directories,
                     files[RustName(path) := digest(tree[path].body)], digest)
  {
    BalancedPop(tree, list, roots, rest, path, visited);
    GatherFile(files, tree, visited, digest, RustName, path);
    PendingNext(tree, roots, rest, path, []);
    assert rest + [] == rest;
  }

  lemma ProgressDone(tree: Tree, roots: seq<Path>, visited: set<Path>, directories: set<Path>, files: map<Text,
    Text>, digest: Digest)
    requires Progress(tree, roots, [], visited, directories, files, digest)
    ensures Regular(tree, roots) && NonNested(roots) && RustNamesDistinct(tree, roots)
    ensures Reports(files, tree, roots, digest, RustName)
  {
    NothingPending(tree, roots, visited);
    GatheredAll(files, tree, roots, visited, digest, RustName);
  }

  /**
   * The Rust worklist: one stack for all roots; a directory met twice, a name met
   * twice, a missing path, a link or a special file is an error.
   */
  method SourceFilesRust(tree: Tree, roots: seq<Path>, list: Listing, digest: Digest)
    returns (r: Option<map<Text, Text>>)
    requires ValidTree(tree) && ListsTree(list, tree)
    ensures r.Some? <==> Regular(tree, roots) && NonNested(roots) && RustNamesDistinct(tree, roots)
    ensures r.Some? ==> Reports(r.value, tree, roots, digest, RustName)
  {
    var pending := roots;
    var directories: set<Path> := {};
    var files: map<Text, Text> := map[];
    ghost var visited: set<Path> := {};
    while pending != []
      invariant Progress(tree, roots, pending, visited, directories, files, digest)
      decreases tree.Keys - visited
    {
      var path := pending[|pending| - 1];
      var rest := pending[..|pending| - 1];
      assert pending == rest + [path];
      if path !in tree {
        return None;
      }
      PendingCovered(tree, roots, rest, path, visited);
      match tree[path] {
        case Dir =>
          if path in directories {
            return None;
          }
          ProgressDir(tree, list, roots, rest, path, visited, directories, files, digest);
          directories := directories + {path};
          pending := rest + Children(path, list(path));
        case File(body) =>
          var relative := RustName(path);
          if relative in files {
            NameTaken(files, tree, roots, pending, visited, digest, path);
            return None;
          }
          ProgressFile(tree, list, roots, rest, path, visited, directories, files, digest);
          files := files[relative := digest(body)];
          pending := rest;
        case _ =>
          return None;
      }
      visited := visited + {path};
    }
    ProgressDone(tree, roots, visited, directories, files, digest);
    r := Some(files);
  }

  /** One root of the Python worklist: a file met again is simply stored again. */
  method WalkRoot(tree: Tree, root: Path, list: Listing, digest: Digest, files: map<Text, Text>, ghost seen: set<Path>)
    returns (r: Option<map<Text, Text>>, ghost visited: set<Path>)
    requires ValidTree(tree) && ListsTree(list, tree)
    requires Gathered(files, tree, seen, digest, Join)
    ensures r.Some? ==> root in tree && Gathered(r.value, tree, seen + visited, digest, Join)
    ensures r.Some? ==> forall q :: q in tree ==> (q in visited <==> root <= q)
    ensures r.None? ==> root !in tree || exists p :: p in tree && root <= p && !tree[p].File? && !tree[p].Dir?
  {
    var pending := [root];
    var gathered := files;
    visited := {};
    assert seen + visited == seen;
    while pending != []
      invariant Balanced(tree, [root], pending, visited)
      invariant visited <= tree.Keys && Gathered(gathered, tree, seen + visited, digest, Join)
      invariant forall p :: p in pending ==> p in tree || p == root
      invariant root in tree || root in pending
      decreases tree.Keys - visited
    {
      var path := pending[|pending| - 1];
      var rest := pending[..|pending| - 1];
      assert pending == rest + [path];
      if path !in tree {
        return None, visited;
      }
      PendingCovered(tree, [root], rest, path, visited);
      BalancedPop(tree, list, [root], rest, path, visited);
      assert (seen + visited) + {path} == seen + (visited + {path});
      match tree[path] {
        case Dir =>
          GatherDir(gathered, tree, seen + visited, digest, Join, path);
          pending := rest + Children(path, list(path));
          ChildrenListed(tree, list, path);
        case File(body) =>
          forall q | q in seen + visited && tree[q].File? && Join(q) == Join(path)
            ensures q == path
          {
            JoinInjective(tree, q, path);
          }
          GatherFile(gathered, tree, seen + visited, digest, Join, path);
          gathered := gathered[Join(path) := digest(body)];
          pending := rest;
        case _ =>
          return None, visited;
      }
      visited := visited + {path};
    }
    NothingPending(tree, [root], visited);
    assert forall q :: q in tree && root <= q ==> [root][0] <= q;
    r := Some(gathered);
  }

  /** The first `n` roots have been walked. */
  predicate Walked(tree: Tree, roots: seq<Path>, n: nat, seen: set<Path>)
    requires n <= |roots|
  {
    && (forall i :: 0 <= i < n ==> roots[i] in tree)
    && forall q :: q in tree ==> (q in seen <==> Under(roots[..n], q))
  }

  lemma WalkedNext(tree: Tree, roots: seq<Path>, n: nat, seen: set<Path>, visited: set<Path>)
    requires n < |roots| && Walked(tree, roots, n, seen) && roots[n] in tree
    requires forall q :: q in tree ==> (q in visited <==> roots[n] <= q)
    ensures Walked(tree, roots, n + 1, seen + visited)
  {
    forall q | q in tree
      ensures q in seen + visited <==> Under(roots[..n + 1], q)
    {
      UnderSnoc(roots, n, q);
    }
  }

  lemma Irregular(tree: Tree, roots: seq<Path>, n: nat)
    requires n < |roots|
    requires roots[n] !in tree || exists p :: p in tree && roots[n] <= p && !tree[p].File? && !tree[p].Dir?
    ensures !Regular(tree, roots)
  {
    if roots[n] in tree {
      var p :| p in tree && roots[n] <= p && !tree[p].File? && !tree[p].Dir?;
      assert Under(roots, p);
    }
  }

  /** The Python worklist: one stack per root. An empty list of roots is refused. */
  method SourceFilesPython(tree: Tree, roots: seq<Path>, list: Listing, digest: Digest)
    returns (r: Option<map<Text, Text>>)
    requires ValidTree(tree) && ListsTree(list, tree)
    ensures r.Some? <==> roots != [] && Regular(tree, roots)
    ensures r.Some? ==> Reports(r.value, tree, roots, digest, Join)
  {
    if roots == [] {
      return None;
    }
    var files: map<Text, Text> := map[];
    ghost var seen: set<Path> := {};
    for n := 0 to |roots|
      invariant Gathered(files, tree, seen, digest, Join)
      invariant Walked(tree, roots, n, seen)
    {
      var walked, visited := WalkRoot(tree, roots[n], list, digest, files, seen);
      if walked.None? {
        Irregular(tree, roots, n);
        return None;
      }
      WalkedNext(tree, roots, n, seen, visited);
      files := walked.value;
      seen := seen + visited;
    }
    assert roots[..|roots|] == roots;
    GatheredAll(files, tree, roots, seen, digest, Join);
    r := Some(files);
  }

  // ----- the flat filter -----

  /** The archive of a tree: the contents of its files by relative name. */
  ghost predicate Archives(source: map<Text, seq<Byte>>, tree: Tree) {
    && (forall p :: p in tree && tree[p].File? ==> Join(p) in source && source[Join(p)] == tree[p].body)
    && forall n :: n in source ==> exists p :: p in tree && tree[p].File? && Join(p) == n
  }

  predicate NameUnder(roots: seq<Path>, name: Text) {
    exists i :: 0 <= i < |roots| && (name == Join(roots[i]) || Join(roots[i]) + [SLASH] <= name)
  }

  function FilterByName(source: map<Text, seq<Byte>>, roots: seq<Path>, digest: Digest): map<Text, Text> {
    map name | name in source && NameUnder(roots, name) :: digest(source[name])
  }

  lemma NameUnderMeaning(roots: seq<Path>, p: Path)
    requires ValidPath(p) && p != []
    requires forall i :: 0 <= i < |roots| ==> ValidPath(roots[i]) && roots[i] != []
    ensures NameUnder(roots, Join(p)) <==> Under(roots, p)
  {
    forall i | 0 <= i < |roots|
      ensures (Join(p) == Join(roots[i]) || Join(roots[i]) + [SLASH] <= Join(p)) <==> roots[i] <= p
    {
      NamePrefix(roots[i], p);
    }
  }

  /** The filter reports exactly the files under the roots. */
  lemma FilterReports(source: map<Text, seq<Byte>>, tree: Tree, roots: seq<Path>, digest: Digest)
    requires ValidTree(tree) && Archives(source, tree)
    requires forall i :: 0 <= i < |roots| ==> ValidPath(roots[i]) && roots[i] != []
    ensures Reports(FilterByName(source, roots, digest), tree, roots, digest, Join)
  {
    var files := FilterByName(source, roots, digest);
    forall p | p in tree && tree[p].File?
      ensures NameUnder(roots, Join(p)) <==> Under(roots, p)
    {
      TreePaths(tree, p);
      NameUnderMeaning(roots, p);
    }
    forall n | n in files
      ensures exists p :: IsInput(tree, roots, p) && Join(p) == n
    {
      var p :| p in tree && tree[p].File? && Join(p) == n;
      assert IsInput(tree, roots, p);
    }
  }

  // ----- agreement -----

  /** A report is determined by the tree, the roots and the naming. */
  lemma ReportsUnique(f: map<Text, Text>, g: map<Text, Text>, tree: Tree, roots: seq<Path>, digest: Digest,
    name: Path -> Text)
    requires Reports(f, tree, roots, digest, name) && Reports(g, tree, roots, digest, name)
    ensures f == g
  {
    forall n | n in f
      ensures n in g && f[n] == g[n]
    {
      var p :| IsInput(tree, roots, p) && name(p) == n;
    }
    forall n | n in g
      ensures n in f
    {
      var p :| IsInput(tree, roots, p) && name(p) == n;
    }
  }

  /** No input has a backslash in its name. */
  predicate NoBackslash(tree: Tree, roots: seq<Path>) {
    forall p :: p in tree && IsInput(tree, roots, p) ==> BACKSLASH !in Join(p)
  }

  lemma PlainNames(python: map<Text, Text>, tree: Tree, roots: seq<Path>, digest: Digest)
    requires Reports(python, tree, roots, digest, Join) && NoBackslash(tree, roots)
    ensures Reports(python, tree, roots, digest, RustName)
  {
    forall p | IsInput(tree, roots, p)
      ensures RustName(p) == Join(p)
    {
    }
    forall n | n in python
      ensures exists p :: IsInput(tree, roots, p) && RustName(p) == n
    {
      var p :| IsInput(tree, roots, p) && Join(p) == n;
      assert RustName(p) == n;
    }
  }

  lemma SlashedName(rust: map<Text, Text>, tree: Tree, roots: seq<Path>, digest: Digest, name: Text)
    requires Reports(rust, tree, roots, digest, RustName) && name in rust
    ensures BACKSLASH !in name
  {
    var q :| IsInput(tree, roots, q) && RustName(q) == name;
  }

  /** The reports of the two programs are equal exactly when no input name has a backslash. */
  lemma ReportsAgree(rust: map<Text, Text>, python: map<Text, Text>, tree: Tree, roots: seq<Path>, digest: Digest)
    requires Reports(rust, tree, roots, digest, RustName) && Reports(python, tree, roots, digest, Join)
    ensures rust == python <==> NoBackslash(tree, roots)
  {
    if NoBackslash(tree, roots) {
      PlainNames(python, tree, roots, digest);
      ReportsUnique(rust, python, tree, roots, digest, RustName);
    } else {
      var p :| p in tree && IsInput(tree, roots, p) && BACKSLASH in Join(p);
      assert Join(p) in python;
      if rust == python {
        SlashedName(rust, tree, roots, digest, Join(p));
      }
    }
  }

  // ----- where the programs differ -----

  function Chars(s: string): (t: Text)
    requires forall i :: 0 <= i < |s| ==> s[i] < '\U{80}'
    ensures |t| == |s| && forall i :: 0 <= i < |s| ==> t[i] == s[i] as int
  {
    seq(|s|, i requires 0 <= i < |s| => s[i] as int)
  }

  /** The declared input roots. */
  function InputNames(): seq<string> {
    ["Cargo.toml", "Cargo.lock", "build.rs", "build_support", "src", "include", "contracts"]
  }

  predicate PlainName(s: string) {
    s != "" && forall i :: 0 <= i < |s| ==> s[i] < '\U{80}' && s[i] != '/' && s[i] != '\\'
  }

  lemma InputNamesPlain(k: nat)
    requires k < |InputNames()|
    ensures PlainName(InputNames()[k])
  {
    var names := InputNames();
    assert PlainName(names[0]) && PlainName(names[1]) && PlainName(names[2]) && PlainName(names[3]);
    assert PlainName(names[4]) && PlainName(names[5]) && PlainName(names[6]);
  }

  /** The declared input roots as paths. */
  function InputRoots(): (r: seq<Path>)
    ensures |r| == |InputNames()|
    ensures forall k :: 0 <= k < |r| ==> |r[k]| == 1 && PlainName(InputNames()[k]) && r[k][0] == Chars(InputNames()[k])
  {
    seq(|InputNames()|, k requires 0 <= k < |InputNames()| => InputNamesPlain(k); [Chars(InputNames()[k])])
  }

  lemma InputRootsPlain(k: nat)
    requires k < |InputRoots()|
    ensures ValidName(InputRoots()[k][0]) && BACKSLASH !in InputRoots()[k][0]
    ensures RustName(InputRoots()[k]) == InputRoots()[k][0]
  {
    var n := InputRoots()[k][0];
    assert forall i :: 0 <= i < |n| ==> n[i] == InputNames()[k][i] as int && n[i] != BACKSLASH;
    assert Slashed(n) == n;
  }

  /** The file "src/\". */
  function BackslashFile(): Path {
    InputRoots()[4] + [[BACKSLASH]]
  }

  /** A package with every declared root, and a file named by a backslash in "src". */
  function BackslashTree(): Tree {
    map[[] := Dir] + (map r | r in InputRoots() :: if r == InputRoots()[4] then Dir else File([])) +
    map[BackslashFile() := File([])]
  }

  lemma BackslashTreeAt(p: Path)
    ensures p in BackslashTree() <==> p == [] || p in InputRoots() || p == BackslashFile()
    ensures p in BackslashTree() ==>
      BackslashTree()[p] == (if p == [] || p == InputRoots()[4] then Dir else File([]))
  {
  }

  lemma BackslashFileNamed()
    ensures var f := BackslashFile();
      && BACKSLASH in Join(f) && SLASH in RustName(f) && InputRoots()[4] <= f && f[..1] == InputRoots()[4]
      && f in BackslashTree() && BackslashTree()[f].File?
  {
    var f, n := BackslashFile(), InputRoots()[4][0];
    assert Join(f) == n + ([SLASH] + [BACKSLASH]);
    assert Join(f)[|n| + 1] == BACKSLASH && RustName(f)[|n|] == SLASH;
  }

  lemma BackslashTreeValid()
    ensures ValidTree(BackslashTree()) && Regular(BackslashTree(), InputRoots())
  {
    var t, roots := BackslashTree(), InputRoots();
    BackslashFileNamed();
    forall p | p in t
      ensures HasParent(t, p) && (t[p].File? || t[p].Dir?)
    {
      BackslashTreeAt(p);
      if p in roots {
        var k :| 0 <= k < |roots| && roots[k] == p;
        InputRootsPlain(k);
        assert p[..0] == [];
      }
    }
  }

  lemma InputRootSlashless(p: Path)
    requires p in InputRoots()
    ensures p == [p[0]] && RustName(p) == p[0] && SLASH !in RustName(p)
  {
    var k :| 0 <= k < |InputRoots()| && InputRoots()[k] == p;
    InputRootsPlain(k);
  }

  lemma BackslashNames(p: Path, q: Path)
    requires p in InputRoots() || p == BackslashFile()
    requires q in InputRoots() || q == BackslashFile()
    ensures p != q ==> RustName(p) != RustName(q)
  {
    BackslashFileNamed();
    if p in InputRoots() {
      InputRootSlashless(p);
    }
    if q in InputRoots() {
      InputRootSlashless(q);
    }
  }

  /** Both programs accept the package. */
  lemma BackslashAccepted()
    ensures ValidTree(BackslashTree()) && Regular(BackslashTree(), InputRoots())
    ensures RustNamesDistinct(BackslashTree(), InputRoots()) && IsInput(BackslashTree(), InputRoots(), BackslashFile())
  {
    var t, roots := BackslashTree(), InputRoots();
    BackslashTreeValid();
    BackslashFileNamed();
    forall p, q | p in t && q in t && IsInput(t, roots, p) && IsInput(t, roots, q) && p != q
      ensures RustName(p) != RustName(q)
    {
      BackslashTreeAt(p);
      BackslashTreeAt(q);
      BackslashNames(p, q);
    }
  }

  /** Whatever the digest, they report it under different names. */
  lemma BackslashDiffers(rust: map<Text, Text>, python: map<Text, Text>, digest: Digest)
    requires Reports(rust, BackslashTree(), InputRoots(), digest, RustName)
    requires Reports(python, BackslashTree(), InputRoots(), digest, Join)
    ensures rust != python
  {
    BackslashFileNamed();
    assert IsInput(BackslashTree(), InputRoots(), BackslashFile());
    ReportsAgree(rust, python, BackslashTree(), InputRoots(), digest);
  }

  /** The declared roots do not nest, so only edited declarations can make the worklists disagree. */
  lemma InputRootsNonNested()
    ensures NonNested(InputRoots())
  {
    var names, roots := InputNames(), InputRoots();
    assert names[0][6] == 't' && names[1][6] == 'l';
    assert roots[0][0][6] != roots[1][0][6];
    forall i, j | 0 <= i < j < |roots|
      ensures roots[i] != roots[j]
    {
      assert |names[i]| != |names[j]| || (i == 0 && j == 1);
    }
    SingleNamesNonNested(roots);
  }

  /** A directory "a" with one file "b" in it. */
  function NestedTree(): Tree {
    map[[] := Dir, [[0x61]] := Dir, [[0x61], [0x62]] := File([])]
  }

  /** The directory and its file, both as roots. */
  function NestedRoots(): seq<Path> {
    [[[0x61]], [[0x61], [0x62]]]
  }

  lemma NestedTreeValid()
    ensures ValidTree(NestedTree())
  {
    var t := NestedTree();
    forall p | p in t
      ensures HasParent(t, p)
    {
      assert [[0x61]][..0] == [] && [[0x61], [0x62]][..1] == [[0x61]];
    }
  }

  lemma NestedFile(p: Path)
    ensures p in NestedTree() && NestedTree()[p].File? ==> p == NestedRoots()[1]
    ensures p in NestedTree() ==> NestedTree()[p].File? || NestedTree()[p].Dir?
  {
  }

  lemma NestedInTree()
    ensures forall i :: 0 <= i < |NestedRoots()| ==> NestedRoots()[i] in NestedTree()
  {
  }

  /**
   * The Python worklist accepts them and the Rust one does not. The declared roots never nest, so
   * this takes an edited declaration.
   */
  lemma NestedRootsDiffer()
    ensures var tree, roots := NestedTree(), NestedRoots();
      && ValidTree(tree) && Regular(tree, roots) && RustNamesDistinct(tree, roots)
      && !NonNested(roots)
  {
    var tree, roots := NestedTree(), NestedRoots();
    NestedTreeValid();
    NestedInTree();
    forall p | p in tree
      ensures (tree[p].File? ==> p == roots[1]) && (tree[p].File? || tree[p].Dir?)
    {
      NestedFile(p);
    }
    assert roots[0] <= roots[1];
  }
}
