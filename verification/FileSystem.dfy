/**
 * The disk that dependency installation works on: a map from component sequences to nodes, and
 * the operating-system calls the installer makes. A call may fail at any moment and may then
 * leave partial work behind; the contracts say how much, and also when a call must succeed on a
 * disk that does not fail by itself.
 */
module FileSystem {
  import opened Common

  type Path = seq<string>

  /** What a stat that follows a symbolic link finds. */
  datatype Leads = Nowhere | ToFile | ToDir

  /** A regular file with its Unix execute bit, a directory, or a symbolic link (a leaf here). */
  datatype Node = File(body: seq<Byte>, exec: bool) | Dir | Link(leads: Leads)

  type Nodes = map<Path, Node>

  predicate Before(q: Path, p: Path) { q < p }

  predicate IsDir(m: Nodes, p: Path) { p in m && m[p].Dir? }

  predicate IsFile(m: Nodes, p: Path) { p in m && m[p].File? }

  /** The execute bit of the file at `p`; false where there is no file. */
  predicate Bit(m: Nodes, p: Path) { IsFile(m, p) && m[p].exec }

  /** A link that leads nowhere; a stat that follows it reports that nothing is there. */
  predicate Dangling(m: Nodes, p: Path) { p in m && m[p] == Link(Nowhere) }

  /** Looking below something that is not a directory is an error, not an absence. */
  predicate Obstructed(m: Nodes, p: Path) {
    exists k :: 0 <= k < |p| && p[..k] in m && !m[p[..k]].Dir? && !Dangling(m, p[..k])
  }

  /** Every node hangs below directories all the way up. */
  ghost predicate Valid(m: Nodes) {
    forall p, q :: p in m && Before(q, p) ==> IsDir(m, q)
  }

  /** `p` is the same in both trees, or it is a directory created on the way down to `root`. */
  ghost predicate Spared(a: Nodes, b: Nodes, root: Path, p: Path) {
    if p in a then p in b && b[p] == a[p] else p in b ==> b[p].Dir? && p < root
  }

  /**
   * Only nodes at or below `root` differ, apart from directories created on the way to it, and
   * nothing but a directory has appeared at `root` itself.
   */
  ghost predicate Confined(a: Nodes, b: Nodes, root: Path) {
    && (root in b && !b[root].Dir? ==> root in a && !a[root].Dir?)
    && forall p {:trigger Spared(a, b, root, p)} :: !(root <= p) ==> Spared(a, b, root, p)
  }

  lemma PrefixTrans(r: Path, q: Path, p: Path)
    ensures r <= q && q <= p ==> r <= p
  {
    if r <= q && q <= p { assert r == q[..|r|] == p[..|r|]; }
  }

  /** Two prefixes of one path are comparable. */
  lemma PrefixesOrdered(q: Path, r: Path, p: Path)
    ensures q <= p && r <= p ==> q < r || r <= q
  {
    if q <= p && r <= p && |r| <= |q| { assert r == p[..|r|] == q[..|r|]; }
  }

  lemma SameConfined(m: Nodes, root: Path)
    ensures Confined(m, m, root)
  {
    forall p: Path | !(root <= p)
      ensures Spared(m, m, root, p)
    {
    }
  }

  lemma ConfinedTrans(a: Nodes, b: Nodes, c: Nodes, root: Path)
    requires Confined(a, b, root) && Confined(b, c, root)
    ensures Confined(a, c, root)
  {
    forall p: Path | !(root <= p)
      ensures Spared(a, c, root, p)
    {
      assert Spared(a, b, root, p) && Spared(b, c, root, p);
    }
  }

  /** A change confined to a deeper root is confined to any root above it. */
  lemma ConfinedWiden(a: Nodes, b: Nodes, root: Path, deep: Path)
    requires root <= deep && Confined(a, b, deep)
    ensures Confined(a, b, root)
  {
    assert root != deep ==> !(deep <= root) && Spared(a, b, deep, root);
    forall p: Path | !(root <= p)
      ensures Spared(a, b, root, p)
    {
      PrefixTrans(root, deep, p);
      PrefixesOrdered(p, root, deep);
      assert Spared(a, b, deep, p);
    }
  }

  ghost function AddDir(m: Nodes, p: Path): (r: Nodes) {
    if p in m then m else m[p := Dir]
  }

  /** `m` with every missing directory down to `p` added. */
  ghost function WithDirs(m: Nodes, p: Path): (r: Nodes)
    decreases |p|
  {
    if p == [] then AddDir(m, p) else AddDir(WithDirs(m, p[..|p| - 1]), p)
  }

  lemma PrefixOrSame(q: Path, p: Path)
    requires p != []
    ensures q <= p <==> q == p || q <= p[..|p| - 1]
    ensures q < p <==> q <= p[..|p| - 1]
  {
    if q <= p && q != p { assert q == p[..|p| - 1][..|q|]; }
    PrefixTrans(q, p[..|p| - 1], p);
  }

  /** Exactly the missing prefixes of `p` are added, and nothing that was there changes. */
  lemma {:induction false} WithDirsAt(m: Nodes, p: Path, q: Path)
    ensures var r := WithDirs(m, p); (q in r <==> q in m || q <= p) && (q in r ==> r[q] == if q in m then m[q] else Dir)
    decreases |p|
  {
    if p != [] {
      WithDirsAt(m, p[..|p| - 1], q);
      PrefixOrSame(q, p);
    }
  }

  lemma DirsKeepNodes(m: Nodes, q: Path)
    ensures forall x :: x in m ==> x in WithDirs(m, q) && WithDirs(m, q)[x] == m[x]
  {
    forall x | x in m
      ensures x in WithDirs(m, q) && WithDirs(m, q)[x] == m[x]
    {
      WithDirsAt(m, q, x);
    }
  }

  /** Creating directories down to a path above `root`, or to `root` itself. */
  lemma CreatedConfined(m: Nodes, root: Path, q: Path)
    requires q <= root
    ensures Confined(m, WithDirs(m, q), root)
  {
    WithDirsAt(m, q, root);
    forall x: Path | !(root <= x)
      ensures Spared(m, WithDirs(m, q), root, x)
    {
      WithDirsAt(m, q, x);
      PrefixTrans(x, q, root);
    }
  }

  /** `m` after a truncating write of `body` at `p`: an existing file keeps its mode. */
  ghost function Written(m: Nodes, p: Path, body: seq<Byte>): (r: Nodes) {
    m[p := File(body, Bit(m, p))]
  }

  /** `m` after copying the file at `source` over `target`, contents and mode. */
  ghost function Copied(m: Nodes, source: Path, target: Path): (r: Nodes)
    requires IsFile(m, source)
  {
    m[target := File(if source == target then [] else m[source].body, m[source].exec)]
  }

  /** `m` after mode 0755 is set on the file at `p`. */
  ghost function Marked(m: Nodes, p: Path): (r: Nodes) {
    if IsFile(m, p) then m[p := m[p].(exec := true)] else m
  }

  /** `m` without everything at or below `p`. */
  ghost function Without(m: Nodes, p: Path): (r: Nodes)
    ensures forall q :: q in r <==> q in m && !(p <= q)
    ensures forall q :: q in r ==> r[q] == m[q]
  {
    map q | q in m && !(p <= q) :: m[q]
  }

  /** `b` is `a` after some, not necessarily all, nodes at or below `root` were deleted. */
  ghost predicate Pruned(a: Nodes, b: Nodes, root: Path) {
    && (forall q :: q in b ==> q in a && b[q] == a[q])
    && (forall q :: q in a && !(root <= q) ==> q in b)
  }

  lemma WithoutValid(m: Nodes, root: Path)
    requires Valid(m)
    ensures Valid(Without(m, root))
  {
    var r := Without(m, root);
    forall p, q | p in r && Before(q, p)
      ensures IsDir(r, q)
    {
      PrefixTrans(root, q, p);
    }
  }

  /** A new leaf, or a replaced one, directly below a directory keeps the tree well formed. */
  lemma AddedBelowDir(m: Nodes, p: Path, node: Node)
    requires Valid(m) && (p == [] || IsDir(m, p[..|p| - 1]))
    requires p in m ==> !m[p].Dir?
    ensures Valid(m[p := node])
  {
    var r := m[p := node];
    forall x, q | x in r && Before(q, x)
      ensures IsDir(r, q)
    {
      if x == p {
        PrefixOrSame(q, p);
        assert q == p[..|p| - 1] || Before(q, p[..|p| - 1]);
      } else {
        assert IsDir(m, q);
      }
    }
  }

  /** Nothing but directories from the top down to `p`, as far as they exist. */
  ghost predicate NoObstacle(m: Nodes, p: Path) {
    forall q {:trigger IsDir(m, q)} :: q <= p && q in m ==> IsDir(m, q)
  }

  lemma {:induction false} WithDirsValid(m: Nodes, p: Path)
    requires Valid(m) && NoObstacle(m, p)
    ensures Valid(WithDirs(m, p)) && IsDir(WithDirs(m, p), p)
    decreases |p|
  {
    WithDirsAt(m, p, p);
    assert p in m ==> IsDir(m, p);
    if p != [] {
      var parent := p[..|p| - 1];
      forall q | q <= parent && q in m
        ensures IsDir(m, q)
      {
        PrefixTrans(q, parent, p);
      }
      WithDirsValid(m, parent);
      WithDirsAt(m, parent, p);
      if p !in m {
        AddedBelowDir(WithDirs(m, parent), p, Dir);
      }
    } else if p !in m {
      AddedBelowDir(m, p, Dir);
    }
  }

  /** A file can be written at `p`: its parent is a directory and at most a regular file is in the way. */
  predicate Writable(m: Nodes, p: Path) {
    p != [] && IsDir(m, p[..|p| - 1]) && (p in m ==> m[p].File?)
  }

  /** A root removal can succeed: nothing there, a directory, or a link that does not lead to a file. */
  predicate Removable(m: Nodes, root: Path) {
    !Obstructed(m, root) && (root in m ==> m[root].Dir? || (m[root].Link? && !m[root].leads.ToFile?))
  }

  /** What a successful root removal leaves. */
  ghost function Removed(m: Nodes, root: Path): (r: Nodes) {
    if Dangling(m, root) then m else Without(m, root)
  }

  lemma MissingRoot(m: Nodes, root: Path)
    requires Valid(m) && (root !in m || Dangling(m, root))
    ensures Removed(m, root) == m
  {
    assert forall q :: q in m && root <= q ==> q == root || Before(root, q);
    assert !Dangling(m, root) ==> Without(m, root) == m;
  }

  /** A file can be renamed to `p`. */
  predicate Replaceable(m: Nodes, p: Path) {
    p != [] && IsDir(m, p[..|p| - 1]) && (p in m ==> !m[p].Dir?)
  }

  /** `m` after the file at `source` was renamed to `target`. */
  ghost function Moved(m: Nodes, source: Path, target: Path): (r: Nodes)
    requires IsFile(m, source)
  {
    (m - {source})[target := m[source]]
  }

  lemma LeafGone(m: Nodes, p: Path)
    requires Valid(m) && IsFile(m, p)
    ensures Valid(m - {p})
  {
    var r := m - {p};
    forall x, q | x in r && Before(q, x)
      ensures IsDir(r, q)
    {
      assert IsDir(m, q);
    }
  }

  /** A free path in the directory `parent`, under another name than `other`. */
  predicate Unused(m: Nodes, parent: Path, other: string, p: Path) {
    |p| == |parent| + 1 && parent <= p && p[|parent|] != other && p !in m
  }

  /** Names longer than all that are in use are free. */
  lemma FreshName(m: Nodes, parent: Path, other: string)
    ensures exists name: string :: Unused(m, parent, other, parent + [name])
  {
    var n := LongerThan(m.Keys);
    var name := seq(n + |other| + 1, _ => '.');
    assert (parent + [name])[|parent|] == name;
    assert Unused(m, parent, other, parent + [name]);
  }

  lemma {:induction false} LongerThan(s: set<Path>) returns (n: nat)
    ensures forall p :: p in s && p != [] ==> |p[|p| - 1]| < n
  {
    n := 0;
    if q :| q in s {
      n := LongerThan(s - {q});
      if q != [] && n <= |q[|q| - 1]| {
        n := |q[|q| - 1]| + 1;
      }
      assert forall p :: p in s ==> p == q || p in s - {q};
    }
  }

  class Disk {
    var nodes: Nodes

    /** On a reliable disk a call fails only for a reason that can be seen in the tree. */
    const reliable: bool

    constructor (initial: Nodes, reliable: bool)
      ensures nodes == initial && this.reliable == reliable
    {
      nodes := initial;
      this.reliable := reliable;
    }

    /** `fs::create_dir_all`: a file or a link on the way makes it fail. */
    method CreateDirAll(p: Path) returns (ok: bool)
      requires Valid(nodes)
      modifies this
      ensures Valid(nodes)
      ensures ok ==> nodes == WithDirs(old(nodes), p)
      ensures ok ==> IsDir(nodes, p)
      ensures !ok ==> nodes == old(nodes) || exists q :: q <= p && nodes == WithDirs(old(nodes), q)
      ensures reliable && NoObstacle(old(nodes), p) ==> ok
    {
      ok := false;
      var k := 0;
      while k <= |p|
        invariant 0 <= k <= |p| + 1
        invariant Valid(nodes)
        invariant k == 0 ==> nodes == old(nodes)
        invariant k > 0 ==> IsDir(nodes, p[..k - 1]) && nodes == WithDirs(old(nodes), p[..k - 1])
      {
        var here := p[..k];
        assert k > 0 ==> here[..k - 1] == p[..k - 1];
        if here in nodes {
          if !nodes[here].Dir? {
            if k > 0 {
              WithDirsAt(old(nodes), p[..k - 1], here);
            }
            assert here in old(nodes) && !IsDir(old(nodes), here);
            return;
          }
        } else {
          var fault: bool := *;
          if fault && !reliable {
            return;
          }
          AddedBelowDir(nodes, here, Dir);
          nodes := nodes[here := Dir];
        }
        k := k + 1;
      }
      assert p[..|p|] == p;
      ok := true;
    }

    /**
     * `fs::File::create` followed by copying a stream into it. The parent must be a directory
     * and nothing but a regular file may be in the way.
     */
    method Write(p: Path, body: seq<Byte>) returns (ok: bool)
      requires Valid(nodes)
      modifies this
      ensures Valid(nodes)
      ensures ok ==> nodes == Written(old(nodes), p, body)
      ensures !ok ==> nodes == old(nodes) || exists part :: part <= body && nodes == Written(old(nodes), p, part)
      ensures reliable && Writable(old(nodes), p) ==> ok
    {
      var fault: bool := *;
      if !Writable(nodes, p) || (fault && !reliable) {
        return false;
      }
      var part: seq<Byte> := *;
      ok := *;
      ok := ok || reliable;
      if ok || !(part <= body) {
        part := body;
      }
      AddedBelowDir(nodes, p, File(part, Bit(nodes, p)));
      nodes := nodes[p := File(part, Bit(nodes, p))];
      assert nodes == Written(old(nodes), p, part);
    }

    /** `fs::copy`: the target receives the source's contents and mode. */
    method Copy(source: Path, target: Path) returns (ok: bool)
      requires Valid(nodes)
      modifies this
      ensures Valid(nodes)
      ensures ok ==> IsFile(old(nodes), source) && nodes == Copied(old(nodes), source, target)
      ensures !ok ==> nodes == old(nodes) || exists f: Node :: f.File? && nodes == old(nodes)[target := f]
      ensures reliable && IsFile(old(nodes), source) && Writable(old(nodes), target) ==> ok
    {
      if !IsFile(nodes, source) {
        return false;
      }
      var bit := nodes[source].exec;
      // The target is truncated when it is opened, before any byte of the source is read.
      ok := Write(target, if source == target then [] else nodes[source].body);
      assert nodes == old(nodes) || (IsFile(nodes, target) && nodes == old(nodes)[target := nodes[target]]);
      if ok {
        nodes := nodes[target := nodes[target].(exec := bit)];
      }
    }

    /** `fs::set_permissions(…, 0o755)` after a successful stat. */
    method MarkExecutable(p: Path) returns (ok: bool)
      requires Valid(nodes)
      modifies this
      ensures Valid(nodes)
      ensures ok ==> p in old(nodes) && nodes == Marked(old(nodes), p)
      ensures !ok ==> nodes == old(nodes)
      ensures reliable && p in old(nodes) ==> ok
    {
      ok := *;
      ok := ok || reliable;
      if p !in nodes {
        ok := false;
      }
      if ok && nodes[p].File? {
        nodes := nodes[p := nodes[p].(exec := true)];
      }
    }

    /** `fs::remove_file`, a missing file being no error; a directory is never removed by it. */
    method RemoveFile(p: Path) returns (ok: bool)
      requires Valid(nodes)
      modifies this
      ensures Valid(nodes)
      ensures ok ==> p !in nodes
      ensures nodes == old(nodes) || nodes == Without(old(nodes), p)
      ensures forall q :: q in old(nodes) && q != p ==> q in nodes
      ensures reliable && !IsDir(old(nodes), p) && !Obstructed(old(nodes), p) ==> ok
    {
      if Obstructed(nodes, p) {
        return false;
      }
      ok := p !in nodes;
      if p in nodes && !nodes[p].Dir? {
        ok := *;
        ok := ok || reliable;
        if ok {
          WithoutValid(nodes, p);
          assert forall q :: q in nodes && q != p && p <= q ==> Before(p, q);
          nodes := map q | q in nodes && !(p <= q) :: nodes[q];
          assert nodes == Without(old(nodes), p);
        }
      }
    }

    /**
     * The stat-then-`fs::remove_dir_all` sequence shared by every root removal. The stat follows
     * links: what is missing, also behind a dangling link, counts as removed and stays as it is,
     * and a root that is a file is an error. The removal itself takes a link away as a link.
     */
    method RemoveRoot(root: Path) returns (ok: bool)
      requires Valid(nodes)
      modifies this
      ensures Valid(nodes)
      ensures ok ==> Removable(old(nodes), root) && nodes == Removed(old(nodes), root)
      ensures Pruned(old(nodes), nodes, root)
      ensures reliable && Removable(old(nodes), root) ==> ok
    {
      var fault: bool := *;
      if Obstructed(nodes, root) || (fault && !reliable) {
        return false;
      }
      if root !in nodes || Dangling(nodes, root) {
        MissingRoot(nodes, root);
        return true;
      }
      if !Removable(nodes, root) {
        return false;
      }
      WithoutValid(nodes, root);
      ok := *;
      ok := ok || reliable;
      if ok {
        nodes := map q | q in nodes && !(root <= q) :: nodes[q];
        assert nodes == Without(old(nodes), root);
      } else {
        // Entries disappear bottom-up until the failure; any of them may be left.
        var steps: nat := *;
        while steps > 0
          invariant Valid(nodes) && Pruned(old(nodes), nodes, root)
        {
          var q: Path := *;
          if q in nodes && root <= q && forall p :: p in nodes ==> !Before(q, p) {
            nodes := nodes - {q};
          }
          steps := steps - 1;
        }
      }
    }

    /** `OpenOptions::create_new` under a name that is not taken yet, and the whole body written to it. */
    method Stage(parent: Path, other: string, body: seq<Byte>) returns (temp: Option<Path>)
      requires Valid(nodes)
      modifies this
      ensures Valid(nodes)
      ensures temp.None? ==> nodes == old(nodes) || exists p, part ::
        Unused(old(nodes), parent, other, p) && nodes == old(nodes)[p := File(part, false)]
      ensures temp.Some? ==>
        Unused(old(nodes), parent, other, temp.value) && nodes == old(nodes)[temp.value := File(body, false)]
      ensures reliable ==> (temp.Some? <==> IsDir(old(nodes), parent)) && (temp.None? ==> nodes == old(nodes))
    {
      var fault: bool := *;
      if !IsDir(nodes, parent) || (fault && !reliable) {
        return None;
      }
      FreshName(nodes, parent, other);
      var name: string :| Unused(nodes, parent, other, parent + [name]);
      var p := parent + [name];
      assert p[..|p| - 1] == parent;
      var part: seq<Byte> := *;
      var whole: bool := *;
      if whole || reliable {
        part := body;
      }
      AddedBelowDir(nodes, p, File(part, false));
      nodes := nodes[p := File(part, false)];
      temp := if whole || reliable then Some(p) else None;
    }

    /** `fs::rename` of a file over a file, a link or nothing: the target is the old one or the new one. */
    method Rename(source: Path, target: Path) returns (ok: bool)
      requires Valid(nodes) && source != target
      modifies this
      ensures Valid(nodes)
      ensures ok ==> IsFile(old(nodes), source) && nodes == Moved(old(nodes), source, target)
      ensures !ok ==> nodes == old(nodes)
      ensures reliable && IsFile(old(nodes), source) && Replaceable(old(nodes), target) ==> ok
    {
      var fault: bool := *;
      if !IsFile(nodes, source) || !Replaceable(nodes, target) || (fault && !reliable) {
        return false;
      }
      var moved := nodes[source];
      LeafGone(nodes, source);
      nodes := nodes - {source};
      AddedBelowDir(nodes, target, moved);
      nodes := nodes[target := moved];
      ok := true;
    }
  }
}
