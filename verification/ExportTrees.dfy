/**
 * What the files of one request say about looking for another: whether they are all that it looks
 * for, and whether looking can meet an error, in terms of the exports alone. Each is tied to the
 * trees in which the files are there.
 */
module ExportTrees {
  import opened Common
  import opened FileSystem
  import opened ArchiveNames
  import opened ArchiveInstall
  import opened DependencyPaths
  import opened PayloadInstall
  import opened DependencyManager

  // ----- files asked for, and the least tree that has them -----

  /** The files that a list of exports asks for, with the execute bits. */
  ghost function Wants(root: Path, exports: seq<Export>): (l: seq<Mark>)
    requires AllResolve(root, exports)
    ensures |l| == |exports|
  {
    seq(|exports|, i requires 0 <= i < |exports| => (TargetOf(root, exports[i].target).value, exports[i].executable))
  }

  ghost predicate AsksFor(l: seq<Mark>, q: Path) {
    exists y :: 0 <= y < |l| && l[y].0 == q
  }

  ghost predicate AsksExec(l: seq<Mark>, q: Path) {
    exists y :: 0 <= y < |l| && l[y] == (q, true)
  }

  ghost predicate OnTheWay(l: seq<Mark>, q: Path) {
    exists y :: 0 <= y < |l| && Before(q, l[y].0)
  }

  ghost predicate Met(m: Nodes, l: seq<Mark>) {
    forall y :: 0 <= y < |l| ==> IsFile(m, l[y].0) && (l[y].1 ==> Bit(m, l[y].0))
  }

  /** No file asked for lies below another. */
  ghost predicate Consistent(l: seq<Mark>) {
    forall x, y :: 0 <= x < |l| && 0 <= y < |l| ==> !Before(l[x].0, l[y].0)
  }

  lemma PresentMeans(m: Nodes, r: Request)
    requires Valid(m)
    ensures PresentIn(m, r) <==>
      Exports(r) != [] && AllResolve(r.root, Exports(r)) && Met(m, Wants(r.root, Exports(r)))
  {
    var xs := Exports(r);
    DetectMeaning(m, r.root, xs);
    if PresentIn(m, r) {
      forall j | 0 <= j < |xs|
        ensures ExportReady(m, r.root, xs[j])
      {
      }
    }
    if AllResolve(r.root, xs) && Met(m, Wants(r.root, xs)) {
      forall j | 0 <= j < |xs|
        ensures ExportReady(m, r.root, xs[j])
      {
        assert Wants(r.root, xs)[j] == (TargetOf(r.root, xs[j].target).value, xs[j].executable);
      }
    }
  }

  lemma MetConsistent(m: Nodes, l: seq<Mark>)
    requires Valid(m) && Met(m, l)
    ensures Consistent(l)
    ensures forall q :: OnTheWay(l, q) ==> IsDir(m, q)
  {
    forall x, y | 0 <= x < |l| && 0 <= y < |l|
      ensures !Before(l[x].0, l[y].0)
    {
      assert IsFile(m, l[x].0) && IsFile(m, l[y].0);
    }
  }

  /** The files asked for and the directories above them. */
  ghost function LeastTree(l: seq<Mark>): (m: Nodes) {
    map q | q in (set y, k | 0 <= y < |l| && 0 <= k <= |l[y].0| :: l[y].0[..k]) ::
      if AsksFor(l, q) then File([], AsksExec(l, q)) else Dir
  }

  lemma LeastTreeAt(l: seq<Mark>, q: Path)
    ensures q in LeastTree(l) <==> AsksFor(l, q) || OnTheWay(l, q)
    ensures q in LeastTree(l) ==> LeastTree(l)[q] == if AsksFor(l, q) then File([], AsksExec(l, q)) else Dir
  {
    if AsksFor(l, q) || OnTheWay(l, q) {
      var y :| 0 <= y < |l| && q <= l[y].0;
      assert q == l[y].0[..|q|];
    }
  }

  lemma LeastTreeValid(l: seq<Mark>)
    requires Consistent(l)
    ensures Valid(LeastTree(l)) && Met(LeastTree(l), l)
  {
    forall p, q | p in LeastTree(l) && Before(q, p)
      ensures IsDir(LeastTree(l), q)
    {
      LeastTreeAt(l, p);
      var y :| 0 <= y < |l| && p <= l[y].0;
      PrefixTrans(q, p, l[y].0);
      assert Before(q, l[y].0);
      LeastTreeAt(l, q);
    }
    forall y | 0 <= y < |l|
      ensures IsFile(LeastTree(l), l[y].0) && (l[y].1 ==> Bit(LeastTree(l), l[y].0))
    {
      assert AsksFor(l, l[y].0);
      assert l[y].1 ==> l[y] == (l[y].0, true);
      LeastTreeAt(l, l[y].0);
    }
  }

  // ----- covering -----

  ghost predicate CoveredBy(l: seq<Mark>, root: Path, x: Export) {
    var t := TargetOf(root, x.target);
    t.Some? && AsksFor(l, t.value) && (x.executable ==> AsksExec(l, t.value))
  }

  /** Everything that `p` looks for is among the files asked for. */
  ghost predicate Covers(l: seq<Mark>, p: Request) {
    Exports(p) != [] && forall x :: 0 <= x < |Exports(p)| ==> CoveredBy(l, p.root, Exports(p)[x])
  }

  lemma CoveredIsPresent(m: Nodes, l: seq<Mark>, p: Request)
    requires Valid(m) && Met(m, l) && Covers(l, p)
    ensures PresentIn(m, p)
  {
    DetectMeaning(m, p.root, Exports(p));
    forall x | 0 <= x < |Exports(p)|
      ensures ExportReady(m, p.root, Exports(p)[x])
    {
      assert CoveredBy(l, p.root, Exports(p)[x]);
    }
  }

  /** `m` has no files but those asked for. */
  ghost predicate OnlyAsked(m: Nodes, l: seq<Mark>) {
    forall q :: IsFile(m, q) ==> AsksFor(l, q) && (Bit(m, q) ==> AsksExec(l, q))
  }

  lemma PresentIsCovered(m: Nodes, l: seq<Mark>, p: Request)
    requires Valid(m) && OnlyAsked(m, l) && PresentIn(m, p)
    ensures Covers(l, p)
  {
    DetectMeaning(m, p.root, Exports(p));
    forall x | 0 <= x < |Exports(p)|
      ensures CoveredBy(l, p.root, Exports(p)[x])
    {
      assert ExportReady(m, p.root, Exports(p)[x]);
    }
  }

  lemma LeastTreeOnly(l: seq<Mark>)
    ensures OnlyAsked(LeastTree(l), l)
  {
    forall q | IsFile(LeastTree(l), q)
      ensures AsksFor(l, q) && (Bit(LeastTree(l), q) ==> AsksExec(l, q))
    {
      LeastTreeAt(l, q);
    }
  }

  // ----- errors on the way -----

  /** Directories in every tree with the files asked for in which `forced` is a directory. */
  ghost predicate Way(l: seq<Mark>, forced: Path, q: Path) {
    OnTheWay(l, q) || q <= forced
  }

  /** Looking for the export can meet an error: no such path can exist, or something can be in the way. */
  ghost predicate Stuck(l: seq<Mark>, forced: Path, root: Path, x: Export) {
    var t := TargetOf(root, x.target);
    t.None? || exists k :: 0 <= k < |t.value| && !Way(l, forced, t.value[..k])
  }

  /** The export is looked for without an error, and it can be there. */
  ghost predicate Passable(l: seq<Mark>, forced: Path, root: Path, x: Export) {
    !Stuck(l, forced, root, x) && !Way(l, forced, TargetOf(root, x.target).value)
  }

  /** Looking for `p` can meet an error at export `i`, all earlier ones being there. */
  ghost predicate Blocks(l: seq<Mark>, forced: Path, p: Request, i: nat) {
    var xs := Exports(p);
    || (xs == [] && i == 0)
    || (i < |xs| && Stuck(l, forced, p.root, xs[i]) && forall k :: 0 <= k < i ==> Passable(l, forced, p.root, xs[k]))
  }

  /** What is there when the error is met: the files asked for and the earlier exports. */
  ghost function There(l: seq<Mark>, p: Request, i: nat): (s: seq<Mark>) {
    if i <= |Exports(p)| && AllResolve(p.root, Exports(p)[..i]) then l + Wants(p.root, Exports(p)[..i]) else l
  }

  lemma BlocksResolve(l: seq<Mark>, forced: Path, p: Request, i: nat)
    requires Blocks(l, forced, p, i)
    ensures i <= |Exports(p)| && AllResolve(p.root, Exports(p)[..i])
    ensures There(l, p, i) == l + Wants(p.root, Exports(p)[..i])
  {
    var xs := Exports(p);
    forall k | 0 <= k < i
      ensures TargetOf(p.root, xs[..i][k].target).Some?
    {
      assert Passable(l, forced, p.root, xs[k]);
    }
  }

  lemma {:induction false} DetectSkips(m: Nodes, root: Path, xs: seq<Export>, i: nat)
    requires i <= |xs| && forall k :: 0 <= k < i ==> ProbeExport(m, root, xs[k]) == Present
    ensures DetectFrom(m, root, xs, 0) == DetectFrom(m, root, xs, i)
  {
    if i > 0 {
      DetectSkips(m, root, xs, i - 1);
    }
  }

  lemma {:induction false} DetectStops(m: Nodes, root: Path, xs: seq<Export>, k: nat) returns (f: nat)
    requires k <= |xs| && DetectFrom(m, root, xs, k) == Failed
    requires forall j :: 0 <= j < k ==> ProbeExport(m, root, xs[j]) == Present
    ensures f < |xs| && ProbeExport(m, root, xs[f]) == Failed
    ensures forall j :: 0 <= j < f ==> ProbeExport(m, root, xs[j]) == Present
    decreases |xs| - k
  {
    f := k;
    if ProbeExport(m, root, xs[k]) == Present {
      f := DetectStops(m, root, xs, k + 1);
    }
  }

  /** Where an export is looked for with an error, it is stuck. */
  lemma FailedIsStuck(m: Nodes, l: seq<Mark>, forced: Path, root: Path, x: Export)
    requires Valid(m) && Met(m, l) && IsDir(m, forced) && ProbeExport(m, root, x) == Failed
    ensures Stuck(l, forced, root, x)
  {
    MetConsistent(m, l);
    var t := TargetOf(root, x.target);
    if t.Some? {
      var k :| 0 <= k < |t.value| && t.value[..k] in m && !m[t.value[..k]].Dir?;
      WayIsDir(m, l, forced, t.value[..k]);
    }
  }

  lemma WayIsDir(m: Nodes, l: seq<Mark>, forced: Path, q: Path)
    requires Valid(m) && Met(m, l) && IsDir(m, forced)
    ensures Way(l, forced, q) ==> IsDir(m, q)
  {
    MetConsistent(m, l);
    assert q <= forced ==> q == forced || Before(q, forced);
  }

  /** The first stuck export among the first `f`, or `f`. */
  lemma FirstStuck(l: seq<Mark>, forced: Path, root: Path, xs: seq<Export>, f: nat) returns (i: nat)
    requires f < |xs| && Stuck(l, forced, root, xs[f])
    ensures i <= f && Stuck(l, forced, root, xs[i]) && forall k :: 0 <= k < i ==> !Stuck(l, forced, root, xs[k])
  {
    i := 0;
    while !Stuck(l, forced, root, xs[i])
      invariant i <= f && forall k :: 0 <= k < i ==> !Stuck(l, forced, root, xs[k])
      decreases f - i
    {
      i := i + 1;
    }
  }

  /** An error met in a tree is a possible error, and what must be there then is there. */
  lemma FailedIsBlocked(m: Nodes, l: seq<Mark>, forced: Path, p: Request) returns (i: nat)
    requires Valid(m) && Met(m, l) && IsDir(m, forced) && Detect(m, p.root, Exports(p)) == Failed
    ensures Blocks(l, forced, p, i) && Met(m, There(l, p, i))
  {
    i := 0;
    var xs := Exports(p);
    if xs != [] {
      var f := DetectStops(m, p.root, xs, 0);
      FailedIsStuck(m, l, forced, p.root, xs[f]);
      i := FirstStuck(l, forced, p.root, xs, f);
      forall k | 0 <= k < i
        ensures Passable(l, forced, p.root, xs[k])
        ensures TargetOf(p.root, xs[k].target).Some? && IsFile(m, TargetOf(p.root, xs[k].target).value)
        ensures xs[k].executable ==> Bit(m, TargetOf(p.root, xs[k].target).value)
      {
        assert ProbeExport(m, p.root, xs[k]) == Present;
        WayIsDir(m, l, forced, TargetOf(p.root, xs[k].target).value);
      }
    }
    BlocksResolve(l, forced, p, i);
    forall y | 0 <= y < |There(l, p, i)|
      ensures IsFile(m, There(l, p, i)[y].0) && (There(l, p, i)[y].1 ==> Bit(m, There(l, p, i)[y].0))
    {
      if y < |l| {
        assert There(l, p, i)[y] == l[y];
      } else {
        assert There(l, p, i)[y] == Wants(p.root, xs[..i])[y - |l|];
      }
    }
  }

  /** The files asked for and the earlier exports fit into one tree with `forced` as a directory. */
  lemma ThereFits(l: seq<Mark>, forced: Path, p: Request, i: nat)
    requires Consistent(l) && (forall y :: 0 <= y < |l| ==> !(l[y].0 <= forced)) && Blocks(l, forced, p, i)
    ensures Consistent(There(l, p, i))
    ensures forall y :: 0 <= y < |There(l, p, i)| ==>
      !Way(l, forced, There(l, p, i)[y].0) &&
      forall q :: Before(q, There(l, p, i)[y].0) ==> Way(l, forced, q)
  {
    BlocksResolve(l, forced, p, i);
    var xs, s := Exports(p), There(l, p, i);
    forall y | 0 <= y < |s|
      ensures !Way(l, forced, s[y].0) && forall q :: Before(q, s[y].0) ==> Way(l, forced, q)
    {
      if y < |l| {
        assert s[y] == l[y];
      } else {
        var k := y - |l|;
        assert s[y] == Wants(p.root, xs[..i])[k] && Passable(l, forced, p.root, xs[k]);
        forall q | Before(q, s[y].0)
          ensures Way(l, forced, q)
        {
          assert q == s[y].0[..|q|];
        }
      }
    }
  }

  /** The shortest prefix that need not be a directory. */
  lemma Obstacle(l: seq<Mark>, forced: Path, t: Path) returns (k: nat)
    requires exists j :: 0 <= j < |t| && !Way(l, forced, t[..j])
    ensures 0 < k < |t| && !Way(l, forced, t[..k]) && Way(l, forced, t[..k - 1])
  {
    k := 0;
    while Way(l, forced, t[..k])
      invariant k < |t| && (k > 0 ==> Way(l, forced, t[..k - 1]))
      invariant exists j :: k <= j < |t| && !Way(l, forced, t[..j])
      decreases |t| - k
    {
      k := k + 1;
    }
    assert t[..0] <= forced;
  }

  /** `m` has the files asked for in `s` and no others, and directories along the way. */
  ghost predicate Laid(m: Nodes, s: seq<Mark>, l: seq<Mark>, forced: Path) {
    && Valid(m) && Met(m, s) && OnlyAsked(m, s)
    && (forall q {:trigger IsDir(m, q)} :: OnTheWay(l, q) ==> IsDir(m, q))
    && (forall q {:trigger IsFile(m, q)} :: q in m && !Way(l, forced, q) ==> IsFile(m, q))
  }

  lemma LeastTreeLaid(l: seq<Mark>, forced: Path, p: Request, i: nat)
    requires Consistent(l) && (forall y :: 0 <= y < |l| ==> !(l[y].0 <= forced)) && Blocks(l, forced, p, i)
    ensures Laid(LeastTree(There(l, p, i)), There(l, p, i), l, forced) && NoObstacle(LeastTree(There(l, p, i)), forced)
  {
    var s := There(l, p, i);
    BlocksResolve(l, forced, p, i);
    ThereFits(l, forced, p, i);
    LeastTreeValid(s);
    LeastTreeOnly(s);
    forall q
      ensures OnTheWay(l, q) ==> IsDir(LeastTree(s), q)
      ensures q in LeastTree(s) && !Way(l, forced, q) ==> IsFile(LeastTree(s), q)
      ensures q in LeastTree(s) && q <= forced ==> IsDir(LeastTree(s), q)
    {
      LeastTreeAt(s, q);
      if OnTheWay(l, q) {
        var y :| 0 <= y < |l| && Before(q, l[y].0);
        assert s[y] == l[y];
      }
      assert AsksFor(s, q) ==> !Way(l, forced, q);
    }
  }

  /** Making `forced` a directory keeps the tree as asked for. */
  lemma ForcedLaid(m: Nodes, s: seq<Mark>, l: seq<Mark>, forced: Path)
    requires Laid(m, s, l, forced) && NoObstacle(m, forced)
    ensures Laid(WithDirs(m, forced), s, l, forced)
    ensures forall q :: q <= forced ==> IsDir(WithDirs(m, forced), q)
  {
    var w := WithDirs(m, forced);
    WithDirsValid(m, forced);
    forall q
      ensures IsFile(w, q) <==> IsFile(m, q)
      ensures q in m ==> q in w && w[q] == m[q]
      ensures q in w && !(q <= forced) ==> q in m
      ensures q <= forced ==> IsDir(w, q)
    {
      WithDirsAt(m, forced, q);
      assert q <= forced && q in m ==> IsDir(m, q);
    }
    forall q
      ensures OnTheWay(l, q) ==> IsDir(w, q)
      ensures q in w && !Way(l, forced, q) ==> IsFile(w, q)
    {
      assert OnTheWay(l, q) ==> IsDir(m, q);
      assert q in m && !Way(l, forced, q) ==> IsFile(m, q);
    }
  }

  /** Something that is no directory can be put on any path that leaves the way. */
  lemma ObstacleLaid(m: Nodes, s: seq<Mark>, l: seq<Mark>, forced: Path, t: Path) returns (w: Nodes)
    requires Laid(m, s, l, forced) && forall q :: q <= forced ==> IsDir(m, q)
    requires exists j :: 0 <= j < |t| && !Way(l, forced, t[..j])
    ensures Valid(w) && Met(w, s) && OnlyAsked(w, s) && Obstructed(w, t)
    ensures forall q :: q <= forced ==> IsDir(w, q)
  {
    var k := Obstacle(l, forced, t);
    var q := t[..k];
    assert q[..|q| - 1] == t[..k - 1];
    w := m;
    if q !in m {
      assert OnTheWay(l, t[..k - 1]) ==> IsDir(m, t[..k - 1]);
      AddedBelowDir(m, q, Link(ToFile));
      w := m[q := Link(ToFile)];
      assert forall x :: IsFile(w, x) ==> IsFile(m, x);
      forall x | x <= forced
        ensures IsDir(w, x)
      {
        assert IsDir(m, x);
      }
    } else {
      assert IsFile(m, q);
    }
    assert t[..k] in w && !w[t[..k]].Dir? && !Dangling(w, t[..k]);
  }

  /** Every possible error is met in some tree that has the files asked for and little else. */
  lemma BlockedTree(l: seq<Mark>, forced: Path, p: Request, i: nat) returns (w: Nodes)
    requires Consistent(l) && (forall y :: 0 <= y < |l| ==> !(l[y].0 <= forced)) && Blocks(l, forced, p, i)
    ensures Valid(w) && Met(w, There(l, p, i)) && OnlyAsked(w, There(l, p, i))
    ensures forall q :: q <= forced ==> IsDir(w, q)
    ensures Detect(w, p.root, Exports(p)) == Failed
  {
    var s := There(l, p, i);
    LeastTreeLaid(l, forced, p, i);
    ForcedLaid(LeastTree(s), s, l, forced);
    w := WithDirs(LeastTree(s), forced);
    var xs := Exports(p);
    if xs != [] {
      var t := TargetOf(p.root, xs[i].target);
      if t.Some? {
        w := ObstacleLaid(w, s, l, forced, t.value);
      }
      EarlierThere(w, l, forced, p, i);
      DetectSkips(w, p.root, xs, i);
    }
  }

  lemma EarlierThere(w: Nodes, l: seq<Mark>, forced: Path, p: Request, i: nat)
    requires Valid(w) && Blocks(l, forced, p, i) && Met(w, There(l, p, i))
    ensures forall k :: 0 <= k < i ==> ProbeExport(w, p.root, Exports(p)[k]) == Present
  {
    BlocksResolve(l, forced, p, i);
    var xs, s := Exports(p), There(l, p, i);
    forall k | 0 <= k < i
      ensures ProbeExport(w, p.root, xs[k]) == Present
    {
      assert s[|l| + k] == Wants(p.root, xs[..i])[k];
      var t := TargetOf(p.root, xs[k].target).value;
      assert IsFile(w, t);
      assert forall j :: 0 <= j < |t| ==> Before(t[..j], t);
    }
  }
}
