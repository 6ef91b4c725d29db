/**
 * When installing a declared dependency succeeds on a reliable disk, in terms of the tree before it
 * and of what the server, the skill list or the bundle has; and why installing another dependency
 * changes none of that.
 */
module DependencyOutcome {
  import opened Common
  import opened FileSystem
  import opened ArchiveNames
  import opened ArchiveInstall
  import opened DependencyPaths
  import opened PayloadInstall
  import opened DownloadCache
  import opened DependencyManager
  import opened DependencyInstall

  // ----- the conditions -----

  /** The outcome is determined: nothing is in the way, and the payload can be looked for. */
  ghost predicate Deliverable(c: Context, kind: Kind, d: Dependency, x: Request, m: Nodes) {
    match x.payload
    case NoPayload => false
    case Bundle(_) => BundleReady(x, m)
    case Online(_) => Straight(c, kind, d, x, m) && ListArrives(c, d, m) && FilesDistinct(c, kind, d, x)
  }

  /** A skill list is not cached where its payload is, and the cache is apart from the installs. */
  ghost predicate FilesDistinct(c: Context, kind: Kind, d: Dependency, x: Request) {
    d.source.SkillList? ==>
      && (x.payload.Online? ==> IndexFile(c, d.source.list) != CacheFile(c, kind, d, x))
      && Apart(c.cfg.cache, Base(c, kind, d))
  }

  /** The payload has what is needed: the bundled file, or one of two downloads. */
  ghost predicate Delivers(c: Context, kind: Kind, d: Dependency, x: Request, m: Nodes)
    requires Deliverable(c, kind, d, x, m)
  {
    match x.payload
    case Bundle(p) => Trusted(c, m[p].body, x.expected) && Serving(c, x, m, m[p].body)
    case Online(_) => Succeeds(c, kind, d, x, m)
  }

  ghost function Delivered(c: Context, kind: Kind, d: Dependency, x: Request, m: Nodes): (body: seq<Byte>)
    requires Deliverable(c, kind, d, x, m) && Delivers(c, kind, d, x, m)
  {
    match x.payload
    case Bundle(p) => m[p].body
    case Online(_) => PayloadUsed(c, kind, d, x, m)
  }

  /** An install into `m` that left `now` was done exactly if the payload delivers, and from that payload. */
  ghost predicate Settles(c: Context, kind: Kind, d: Dependency, x: Request, m: Nodes, now: Nodes, done: bool) {
    && Deliverable(c, kind, d, x, m) && (done <==> Delivers(c, kind, d, x, m))
    && (done ==> FromBody(c, x, Delivered(c, kind, d, x, m), now))
  }

  /** The dependency is not installed, no probe for it meets an error, and the outcome is determined. */
  ghost predicate Wanted(c: Context, kind: Kind, d: Dependency, x: Request, m: Nodes) {
    && d.scope.Skill? && ResolvedFrom(c, kind, d, x) && (d.source.Bundled? <==> x.payload.Bundle?)
    && Lacking(c, kind, d, m) && AbsentIn(m, x)
    && Deliverable(c, kind, d, x, m)
  }

  /** The request is installed already, where the local search did not look; it is found when it is resolved. */
  ghost predicate Reused(c: Context, kind: Kind, d: Dependency, x: Request, m: Nodes) {
    && d.scope.Skill? && ResolvedFrom(c, kind, d, x) && (c.cfg.network || d.source.Bundled?)
    && Lacking(c, kind, d, m) && PresentIn(m, x)
    && ListArrives(c, d, m) && (d.source.SkillList? ==> Apart(c.cfg.cache, Base(c, kind, d)))
  }

  /** The dependency is not there, and the host or the configuration does not let it be installed. */
  ghost predicate Withheld(c: Context, kind: Kind, d: Dependency, m: Nodes) {
    && (d.scope.Host? || (!c.cfg.network && !d.source.Bundled?))
    && Lacking(c, kind, d, m)
  }

  // ----- what does not matter to a dependency -----

  predicate Grown(a: Nodes, b: Nodes, q: Path) {
    if q in a then q in b && b[q] == a[q] else q in b ==> b[q].Dir?
  }

  /** What is at or below the root is the same, and above it only directories are new. */
  ghost predicate Undisturbed(a: Nodes, b: Nodes, root: Path) {
    && (forall q {:trigger SameAt(a, b, q)} :: root <= q ==> SameAt(a, b, q))
    && (forall q {:trigger Grown(a, b, q)} :: q < root ==> Grown(a, b, q))
  }

  lemma UndisturbedDeeper(a: Nodes, b: Nodes, root: Path, deep: Path)
    requires Undisturbed(a, b, root) && root <= deep
    ensures Undisturbed(a, b, deep)
  {
    forall q | deep <= q
      ensures SameAt(a, b, q)
    {
      PrefixTrans(root, deep, q);
    }
    forall q | q < deep
      ensures Grown(a, b, q)
    {
      PrefixesOrdered(q, root, deep);
      assert root <= q ==> SameAt(a, b, q);
    }
  }

  lemma ObstructedKept(a: Nodes, b: Nodes, root: Path, t: Path)
    requires Undisturbed(a, b, root) && root < t
    ensures Obstructed(a, t) == Obstructed(b, t)
  {
    forall k | 0 <= k < |t|
      ensures t[..k] in a && !a[t[..k]].Dir? && !Dangling(a, t[..k]) <==>
        t[..k] in b && !b[t[..k]].Dir? && !Dangling(b, t[..k])
    {
      PrefixesOrdered(t[..k], root, t);
      assert if t[..k] < root then Grown(a, b, t[..k]) else SameAt(a, b, t[..k]);
    }
  }

  lemma {:induction false} DetectKept(a: Nodes, b: Nodes, root: Path, xs: seq<Export>, k: nat)
    requires Undisturbed(a, b, root) && k <= |xs|
    ensures DetectFrom(a, root, xs, k) == DetectFrom(b, root, xs, k)
    decreases |xs| - k
  {
    if k < |xs| {
      DetectKept(a, b, root, xs, k + 1);
      var t := TargetOf(root, xs[k].target);
      if t.Some? {
        TargetBelowRoot(root, xs[k].target, xs[k].target);
        ObstructedKept(a, b, root, t.value);
        assert SameAt(a, b, t.value);
      }
    }
  }

  lemma StatusKept(a: Nodes, b: Nodes, r: Request)
    requires Undisturbed(a, b, r.root)
    ensures StatusOf(a, r) == StatusOf(b, r)
  {
    DetectKept(a, b, r.root, Exports(r), 0);
  }

  /** The local search for a dependency sees the same. */
  lemma SearchKept(c: Context, kind: Kind, d: Dependency, a: Nodes, b: Nodes)
    requires Undisturbed(a, b, Base(c, kind, d))
    ensures AllDetectable(c, kind, d, a) <==> AllDetectable(c, kind, d, b)
    ensures Findable(c, kind, d, a) <==> Findable(c, kind, d, b)
  {
    forall r
      ensures Local(c, kind, d, a, r) <==> Local(c, kind, d, b, r)
      ensures Local(c, kind, d, a, r) ==> StatusOf(a, r) == StatusOf(b, r)
    {
      if Probed(c, kind, d, r) || Scanned(c, kind, d, r) {
        ServesBelow(c, kind, d, r);
        UndisturbedDeeper(a, b, Base(c, kind, d), r.root);
        StatusKept(a, b, r);
        assert Base(c, kind, d) <= r.root[..|r.root| - 1];
        assert SameAt(a, b, r.root) && SameAt(a, b, r.root[..|r.root| - 1]);
      }
    }
    AllDetectableKept(c, kind, d, a, b);
    AllDetectableKept(c, kind, d, b, a);
    FindableKept(c, kind, d, a, b);
    FindableKept(c, kind, d, b, a);
  }

  lemma AllDetectableKept(c: Context, kind: Kind, d: Dependency, a: Nodes, b: Nodes)
    requires forall r :: Local(c, kind, d, b, r) ==> Local(c, kind, d, a, r) && StatusOf(a, r) == StatusOf(b, r)
    ensures AllDetectable(c, kind, d, a) ==> AllDetectable(c, kind, d, b)
  {
    if AllDetectable(c, kind, d, a) {
      forall r | Local(c, kind, d, b, r)
        ensures Detectable(b, r)
      {
        assert Detectable(a, r);
      }
    }
  }

  lemma FindableKept(c: Context, kind: Kind, d: Dependency, a: Nodes, b: Nodes)
    requires forall r :: Local(c, kind, d, a, r) ==> Local(c, kind, d, b, r) && StatusOf(a, r) == StatusOf(b, r)
    ensures Findable(c, kind, d, a) ==> Findable(c, kind, d, b)
  {
    if Findable(c, kind, d, a) {
      var r :| Local(c, kind, d, a, r) && PresentIn(a, r);
      assert PresentIn(b, r);
    }
  }

  /** Nothing that matters to the dependency and its payload has changed between `a` and `b`. */
  ghost predicate Calm(c: Context, kind: Kind, d: Dependency, x: Request, a: Nodes, b: Nodes) {
    && Undisturbed(a, b, Base(c, kind, d))
    && (forall q {:trigger Grown(a, b, q)} :: q <= c.cfg.cache ==> Grown(a, b, q))
    && (d.source.SkillList? ==> TextKept(c, a, b, IndexFile(c, d.source.list)))
    && match x.payload
       case NoPayload => true
       case Bundle(p) => SameAt(a, b, p)
       case Online(_) => SameAt(a, b, CacheFile(c, kind, d, x))
  }

  lemma NoObstacleKept(a: Nodes, b: Nodes, p: Path)
    requires NoObstacle(a, p) && forall q :: q <= p ==> Grown(a, b, q)
    ensures NoObstacle(b, p)
  {
    forall q | q <= p && q in b
      ensures IsDir(b, q)
    {
      assert Grown(a, b, q);
      assert q in a ==> IsDir(a, q);
    }
  }

  lemma RootGrown(c: Context, kind: Kind, d: Dependency, x: Request, a: Nodes, b: Nodes)
    requires ResolvedFrom(c, kind, d, x) && Undisturbed(a, b, Base(c, kind, d))
    ensures Undisturbed(a, b, x.root) && forall q :: q <= x.root ==> Grown(a, b, q)
  {
    ServesBelow(c, kind, d, x);
    UndisturbedDeeper(a, b, Base(c, kind, d), x.root);
    forall q | q <= x.root
      ensures Grown(a, b, q)
    {
      assert q == x.root ==> SameAt(a, b, q);
    }
  }

  lemma StraightCalm(c: Context, kind: Kind, d: Dependency, x: Request, a: Nodes, b: Nodes)
    requires ResolvedFrom(c, kind, d, x) && Calm(c, kind, d, x, a, b) && x.payload.Online?
    requires Straight(c, kind, d, x, a)
    ensures Straight(c, kind, d, x, b) && (Succeeds(c, kind, d, x, a) <==> Succeeds(c, kind, d, x, b))
    ensures Succeeds(c, kind, d, x, a) ==> PayloadUsed(c, kind, d, x, a) == PayloadUsed(c, kind, d, x, b)
  {
    RootGrown(c, kind, d, x, a, b);
    NoObstacleKept(a, b, c.cfg.cache);
    NoObstacleKept(a, b, x.root);
    SucceedsKept(c, kind, d, x, a, b);
  }

  /** The outcome of the downloads depends on the cached file and on what is below the root. */
  lemma SucceedsKept(c: Context, kind: Kind, d: Dependency, x: Request, a: Nodes, b: Nodes)
    requires x.payload.Online? && Placeable(x) && SameAt(a, b, CacheFile(c, kind, d, x))
    requires forall q :: x.root <= q ==> SameAt(a, b, q)
    ensures Succeeds(c, kind, d, x, a) <==> Succeeds(c, kind, d, x, b)
    ensures Succeeds(c, kind, d, x, a) ==> PayloadUsed(c, kind, d, x, a) == PayloadUsed(c, kind, d, x, b)
  {
    SameBelow(a, b, x);
  }

  lemma ListCalm(c: Context, kind: Kind, d: Dependency, x: Request, a: Nodes, b: Nodes)
    requires Calm(c, kind, d, x, a, b) && ListArrives(c, d, a)
    ensures ListArrives(c, d, b)
  {
    if d.source.SkillList? {
      NoObstacleKept(a, b, c.cfg.cache);
    }
  }

  lemma BundleCalm(c: Context, kind: Kind, d: Dependency, x: Request, a: Nodes, b: Nodes)
    requires ResolvedFrom(c, kind, d, x) && Calm(c, kind, d, x, a, b) && x.payload.Bundle? && BundleReady(x, a)
    ensures BundleReady(x, b) && b[x.payload.path] == a[x.payload.path]
    ensures AllSafe(b, x.root, Targets(x)) <==> AllSafe(a, x.root, Targets(x))
  {
    RootGrown(c, kind, d, x, a, b);
    NoObstacleKept(a, b, x.root);
    SameBelow(a, b, x);
  }

  /** A calm change keeps a wanted dependency wanted, with the same outcome. */
  lemma WantedKept(c: Context, kind: Kind, d: Dependency, x: Request, a: Nodes, b: Nodes)
    requires Wanted(c, kind, d, x, a) && Calm(c, kind, d, x, a, b)
    ensures Wanted(c, kind, d, x, b)
    ensures Delivers(c, kind, d, x, a) <==> Delivers(c, kind, d, x, b)
    ensures Delivers(c, kind, d, x, a) ==> Delivered(c, kind, d, x, a) == Delivered(c, kind, d, x, b)
  {
    RootGrown(c, kind, d, x, a, b);
    StatusKept(a, b, x);
    SearchKept(c, kind, d, a, b);
    if x.payload.Online? {
      StraightCalm(c, kind, d, x, a, b);
      ListCalm(c, kind, d, x, a, b);
    } else {
      BundleCalm(c, kind, d, x, a, b);
    }
  }

  /** So is one that is found when it is resolved. */
  lemma ReusedKept(c: Context, kind: Kind, d: Dependency, x: Request, a: Nodes, b: Nodes)
    requires Reused(c, kind, d, x, a) && Undisturbed(a, b, Base(c, kind, d))
    requires forall q :: q <= c.cfg.cache ==> Grown(a, b, q)
    requires d.source.SkillList? ==> TextKept(c, a, b, IndexFile(c, d.source.list))
    ensures Reused(c, kind, d, x, b)
  {
    RootGrown(c, kind, d, x, a, b);
    StatusKept(a, b, x);
    SearchKept(c, kind, d, a, b);
    if d.source.SkillList? {
      NoObstacleKept(a, b, c.cfg.cache);
    }
  }

  // ----- resolving is calm -----

  /** Fetching a skill list changes nothing outside the cache. */
  lemma ResolveUndisturbed(c: Context, kind: Kind, d: Dependency, a: Nodes, b: Nodes)
    requires d.source.SkillList? && Apart(c.cfg.cache, Base(c, kind, d))
    requires OnlyAt(a, b, c.cfg.cache, IndexFile(c, d.source.list))
    ensures Undisturbed(a, b, Base(c, kind, d))
    ensures forall q :: q <= c.cfg.cache ==> Grown(a, b, q)
  {
    var file, base, cache := IndexFile(c, d.source.list), Base(c, kind, d), c.cfg.cache;
    forall q | base <= q
      ensures SameAt(a, b, q)
    {
      FileApart(file, cache, base, q);
      PrefixTrans(base, q, cache);
      assert Same(a, b, cache, q);
    }
    forall q | q < base
      ensures Grown(a, b, q)
    {
      FileApart(file, cache, base, q);
      assert Same(a, b, cache, q);
    }
    forall q | q <= cache
      ensures Grown(a, b, q)
    {
      assert |q| < |file|;
      assert Same(a, b, cache, q);
    }
  }

  /** And nothing that matters. */
  lemma ResolveCalm(c: Context, kind: Kind, d: Dependency, x: Request, a: Nodes, b: Nodes)
    requires Wanted(c, kind, d, x, a) && d.source.SkillList?
    requires OnlyAt(a, b, c.cfg.cache, IndexFile(c, d.source.list)) && TextKept(c, a, b, IndexFile(c, d.source.list))
    ensures Calm(c, kind, d, x, a, b)
  {
    var cache := c.cfg.cache;
    ResolveUndisturbed(c, kind, d, a, b);
    assert |CacheFile(c, kind, d, x)| > |cache|;
    assert Same(a, b, cache, CacheFile(c, kind, d, x));
  }

  /** A file of the cache is neither above nor at nor below a directory apart from the cache. */
  lemma FileApart(file: Path, cache: Path, base: Path, q: Path)
    requires cache < file && Apart(cache, base)
    ensures base <= q || q < base ==> q != file
  {
    if q == file {
      PrefixesOrdered(base, cache, file);
      PrefixTrans(cache, file, base);
    }
  }
}
