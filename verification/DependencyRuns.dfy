/**
 * Whole runs over a manifest: ensuring every dependency in turn, and cleaning up after an update.
 */
module DependencyRuns {
  import opened Common
  import opened FileSystem
  import opened ArchiveNames
  import opened DependencyPaths
  import opened PayloadInstall
  import opened DependencyManager
  import opened DownloadCache
  import opened DependencyInstall
  import opened DependencyOutcome

  /** The files in the cache that belong to the dependency. */
  ghost function OwnFiles(c: Context, kind: Kind, d: Dependency): set<Path> {
    ListFiles(c, d) + PayloadFiles(c, kind, d)
  }

  ghost function ListFiles(c: Context, d: Dependency): set<Path> {
    if d.source.SkillList? then {IndexFile(c, d.source.list)} else {}
  }

  ghost function PayloadFiles(c: Context, kind: Kind, d: Dependency): set<Path> {
    var r := ResolvedRequest(c, kind, d);
    if r.Some? && r.value.payload.Online? then {CacheFile(c, kind, d, r.value)} else {}
  }

  /** What installing the dependency on a reliable disk does elsewhere. */
  ghost predicate Leaves(c: Context, kind: Kind, d: Dependency, a: Nodes, b: Nodes) {
    && Effect(a, b, OwnFiles(c, kind, d), c.cfg.cache, Base(c, kind, d))
    && (d.source.SkillList? && ListFiles(c, d) !! PayloadFiles(c, kind, d) && Apart(c.cfg.cache, Base(c, kind, d)) ==>
        TextKept(c, a, b, IndexFile(c, d.source.list)))
  }

  lemma LeavesAll(c: Context, kind: Kind, d: Dependency, a: Nodes)
    ensures Leaves(c, kind, d, a, a)
  {
    forall q
      ensures Untouched(a, a, c.cfg.cache, Base(c, kind, d), q)
    {
    }
  }

  /** A skill list may have been fetched, and nothing else has changed. */
  ghost predicate ListFetched(c: Context, d: Dependency, a: Nodes, m: Nodes) {
    if d.source.SkillList? then
      var f := IndexFile(c, d.source.list);
      OnlyAt(a, m, c.cfg.cache, f) && TextKept(c, a, m, f)
    else m == a
  }

  /** Fetching a skill list leaves everything else, and so does the install that follows. */
  lemma LeavesTrans(c: Context, kind: Kind, d: Dependency, a: Nodes, m: Nodes, b: Nodes)
    requires ListFetched(c, d, a, m)
    requires Effect(m, b, PayloadFiles(c, kind, d), c.cfg.cache, Base(c, kind, d))
    ensures Leaves(c, kind, d, a, b)
  {
    var files, cache, base := OwnFiles(c, kind, d), c.cfg.cache, Base(c, kind, d);
    EffectWiden(m, b, PayloadFiles(c, kind, d), files, cache, base, base);
    if d.source.SkillList? {
      var f := IndexFile(c, d.source.list);
      EffectAt(a, m, f, cache, base);
      EffectWiden(a, m, {f}, files, cache, base, base);
      EffectTrans(a, m, b, files, cache, base);
      if ListFiles(c, d) !! PayloadFiles(c, kind, d) && Apart(cache, base) {
        assert f in ListFiles(c, d);
        FileApart(f, cache, base, f);
        assert Untouched(m, b, cache, base, f);
      }
    }
  }

  /**
   * If the dependency is wanted, the outcome `r` is settled by its payload; if the resolved request
   * is there already, it is the outcome.
   */
  ghost predicate SettlesWanted(c: Context, kind: Kind, d: Dependency, a: Nodes, b: Nodes, r: Option<Request>) {
    && (forall x {:trigger Wanted(c, kind, d, x, a)} :: Wanted(c, kind, d, x, a) ==>
          Settles(c, kind, d, x, a, b, r == Some(x)) && (r.Some? ==> r.value == x))
    && forall x {:trigger Reused(c, kind, d, x, a)} :: Reused(c, kind, d, x, a) ==> r == Some(x)
  }

  /**
   * Reuse, install or download one dependency; `None` stands for every error. What is not reused
   * was unpacked from a payload that matches the digest insisted on. On a reliable disk it succeeds
   * when a local probe is present and none meets an error; if nothing is installed and nothing is
   * in the way, it succeeds exactly when the payload delivers, whatever the source.
   */
  method InstallDependency(disk: Disk, c: Context, kind: Kind, d: Dependency) returns (r: Option<Request>)
    requires Valid(disk.nodes)
    modifies disk
    ensures Valid(disk.nodes) && Within(old(disk.nodes), disk.nodes, c.cfg.cache, Base(c, kind, d))
    ensures d.scope.Host? ==> disk.nodes == old(disk.nodes)
    ensures !c.cfg.network && !d.source.Bundled? ==> disk.nodes == old(disk.nodes)
    ensures r.Some? ==> Serves(c, kind, d, r.value) && PresentIn(disk.nodes, r.value)
    ensures r.Some? ==>
      Confined(old(disk.nodes), disk.nodes, c.cfg.cache) || InstalledFrom(c, r.value, disk.nodes)
    ensures disk.reliable ==> Leaves(c, kind, d, old(disk.nodes), disk.nodes)
    ensures disk.reliable && InPlace(c, kind, d, old(disk.nodes)) ==> r.Some? && disk.nodes == old(disk.nodes)
    ensures disk.reliable && Withheld(c, kind, d, old(disk.nodes)) ==> r.None? && disk.nodes == old(disk.nodes)
    ensures disk.reliable ==> SettlesWanted(c, kind, d, old(disk.nodes), disk.nodes, r)
  {
    SameConfined(disk.nodes, c.cfg.cache);
    LeavesAll(c, kind, d, disk.nodes);
    var search := FindExisting(disk, c, kind, d);
    if disk.reliable {
      SearchOutcome(c, kind, d, disk.nodes, search);
    }
    if !search.NotFound? {
      r := if search.Found? then Some(search.request) else None;
      if disk.reliable {
        NothingToSettle(c, kind, d, disk.nodes, r);
      }
      return;
    }
    if d.scope.Host? || (!c.cfg.network && !d.source.Bundled?) {
      WithheldSettles(c, kind, d, disk.nodes);
      return None;
    }
    r := InstallMissing(disk, c, kind, d);
  }

  /** What follows when the local search has found nothing. */
  method InstallMissing(disk: Disk, c: Context, kind: Kind, d: Dependency) returns (r: Option<Request>)
    requires Valid(disk.nodes)
    modifies disk
    ensures Valid(disk.nodes) && Within(old(disk.nodes), disk.nodes, c.cfg.cache, Base(c, kind, d))
    ensures r.Some? ==> Serves(c, kind, d, r.value) && PresentIn(disk.nodes, r.value)
    ensures r.Some? ==>
      Confined(old(disk.nodes), disk.nodes, c.cfg.cache) || InstalledFrom(c, r.value, disk.nodes)
    ensures disk.reliable ==> Leaves(c, kind, d, old(disk.nodes), disk.nodes)
    ensures disk.reliable ==> SettlesWanted(c, kind, d, old(disk.nodes), disk.nodes, r)
  {
    var base := Base(c, kind, d);
    var request := Resolve(disk, c, kind, d);
    ghost var resolved := disk.nodes;
    WithinFirst(old(disk.nodes), resolved, c.cfg.cache, base);
    if disk.reliable {
      AfterResolving(c, kind, d, old(disk.nodes), resolved);
    }
    if request.None? {
      EffectBelow(resolved, resolved, PayloadFiles(c, kind, d), c.cfg.cache, base) by {
        SameConfined(resolved, base);
      }
      if disk.reliable {
        LeavesTrans(c, kind, d, old(disk.nodes), resolved, resolved);
      }
      return None;
    }
    r := InstallResolved(disk, c, kind, d, request.value);
    if disk.reliable {
      SettledIsAll(c, kind, d, request.value, resolved, disk.nodes, r);
    }
    WithinTrans(old(disk.nodes), resolved, disk.nodes, c.cfg.cache, base);
    if disk.reliable {
      LeavesTrans(c, kind, d, old(disk.nodes), resolved, disk.nodes);
    }
    if r.Some? && disk.nodes == resolved {
      SameConfined(resolved, c.cfg.cache);
    }
  }

  /** There is only one request that can be wanted. */
  lemma SettledIsAll(c: Context, kind: Kind, d: Dependency, request: Request, a: Nodes, b: Nodes, r: Option<Request>)
    requires ResolvedFrom(c, kind, d, request) && (r.Some? ==> r.value == request)
    requires AbsentIn(a, request) ==> Deliverable(c, kind, d, request, a) ==>
      Settles(c, kind, d, request, a, b, r.Some?)
    requires PresentIn(a, request) ==> r == Some(request)
    ensures SettlesWanted(c, kind, d, a, b, r)
  {
  }

  /** What is wanted or reused is so after its list was fetched, with the same outcome. */
  lemma AfterResolving(c: Context, kind: Kind, d: Dependency, a: Nodes, b: Nodes)
    requires ListFetched(c, d, a, b)
    ensures forall now, r :: SettlesWanted(c, kind, d, b, now, r) ==> SettlesWanted(c, kind, d, a, now, r)
  {
    forall now, r | SettlesWanted(c, kind, d, b, now, r)
      ensures SettlesWanted(c, kind, d, a, now, r)
    {
      forall x | Wanted(c, kind, d, x, a)
        ensures Settles(c, kind, d, x, a, now, r == Some(x)) && (r.Some? ==> r.value == x)
      {
        WantedAfter(c, kind, d, x, a, b);
      }
      forall x | Reused(c, kind, d, x, a)
        ensures r == Some(x)
      {
        ReusedAfter(c, kind, d, x, a, b);
      }
    }
  }

  lemma WantedAfter(c: Context, kind: Kind, d: Dependency, x: Request, a: Nodes, b: Nodes)
    requires ListFetched(c, d, a, b) && Wanted(c, kind, d, x, a)
    ensures Wanted(c, kind, d, x, b)
    ensures forall now, done :: Settles(c, kind, d, x, b, now, done) ==> Settles(c, kind, d, x, a, now, done)
  {
    if d.source.SkillList? {
      ResolveCalm(c, kind, d, x, a, b);
      WantedKept(c, kind, d, x, a, b);
    }
  }

  lemma ReusedAfter(c: Context, kind: Kind, d: Dependency, x: Request, a: Nodes, b: Nodes)
    requires ListFetched(c, d, a, b) && Reused(c, kind, d, x, a)
    ensures Reused(c, kind, d, x, b)
  {
    if d.source.SkillList? {
      ResolveUndisturbed(c, kind, d, a, b);
      ReusedKept(c, kind, d, x, a, b);
    }
  }

  lemma SearchOutcome(c: Context, kind: Kind, d: Dependency, m: Nodes, r: Search)
    requires exists rs :: ProbeOrder(c, kind, d, m, rs) && r == SearchIn(m, rs)
    ensures InPlace(c, kind, d, m) ==> r.Found?
    ensures !r.NotFound? ==> !Lacking(c, kind, d, m)
  {
    var rs :| ProbeOrder(c, kind, d, m, rs) && r == SearchIn(m, rs);
    SearchMeaning(c, kind, d, m, rs);
  }

  /** Nothing is wanted, reused or withheld unless the local search has to find nothing. */
  lemma NothingToSettle(c: Context, kind: Kind, d: Dependency, m: Nodes, r: Option<Request>)
    requires !Lacking(c, kind, d, m)
    ensures !Withheld(c, kind, d, m) && SettlesWanted(c, kind, d, m, m, r)
  {
    forall x
      ensures !Wanted(c, kind, d, x, m) && !Reused(c, kind, d, x, m)
    {
    }
  }

  /** What the host is to provide, or what the network is needed for when it is not allowed, is not wanted. */
  lemma WithheldSettles(c: Context, kind: Kind, d: Dependency, m: Nodes)
    requires d.scope.Host? || (!c.cfg.network && !d.source.Bundled?)
    ensures SettlesWanted(c, kind, d, m, m, None)
  {
  }

  method InstallResolved(disk: Disk, c: Context, kind: Kind, d: Dependency, request: Request)
    returns (r: Option<Request>)
    requires Valid(disk.nodes) && ResolvedFrom(c, kind, d, request)
    modifies disk
    ensures Valid(disk.nodes) && Within(old(disk.nodes), disk.nodes, c.cfg.cache, Base(c, kind, d))
    ensures r.Some? ==> r.value == request && PresentIn(disk.nodes, request)
    ensures r.Some? ==> disk.nodes == old(disk.nodes) || InstalledFrom(c, request, disk.nodes)
    ensures disk.reliable ==>
      Effect(old(disk.nodes), disk.nodes, PayloadFiles(c, kind, d), c.cfg.cache, Base(c, kind, d))
    ensures disk.reliable && AbsentIn(old(disk.nodes), request) ==>
      Deliverable(c, kind, d, request, old(disk.nodes)) ==>
      Settles(c, kind, d, request, old(disk.nodes), disk.nodes, r.Some?)
    ensures disk.reliable && PresentIn(old(disk.nodes), request) ==> r == Some(request)
  {
    ServesBelow(c, kind, d, request);
    ghost var base := Base(c, kind, d);
    EffectBelow(disk.nodes, disk.nodes, PayloadFiles(c, kind, d), c.cfg.cache, base) by {
      SameConfined(disk.nodes, base);
    }
    var s := DetectOnDisk(disk, request.root, Exports(request));
    if !s.Missing? {
      return if s.Present? then Some(request) else None;
    }
    var a;
    if d.source.Bundled? {
      a := InstallBundled(disk, c, request);
      ConfinedWiden(old(disk.nodes), disk.nodes, base, request.root);
      WithinSecond(old(disk.nodes), disk.nodes, c.cfg.cache, base);
      EffectBelow(old(disk.nodes), disk.nodes, PayloadFiles(c, kind, d), c.cfg.cache, base);
    } else {
      a := InstallRemote(disk, c, kind, d, request);
      WithinWiden(old(disk.nodes), disk.nodes, c.cfg.cache, base, request.root);
      if disk.reliable {
        EffectWiden(old(disk.nodes), disk.nodes, {CacheFile(c, kind, d, request)}, PayloadFiles(c, kind, d),
          c.cfg.cache, base, request.root);
      }
    }
    r := if a.Done? then Some(request) else None;
  }

  lemma WithinWiden(a: Nodes, b: Nodes, x: Path, y: Path, deep: Path)
    requires y <= deep && Within(a, b, x, deep)
    ensures Within(a, b, x, y)
  {
    forall p: Path | !(x <= p) && !(y <= p)
      ensures Spared2(a, b, x, y, p)
    {
      PrefixTrans(y, deep, p);
      PrefixesOrdered(p, y, deep);
      assert Spared2(a, b, x, deep, p);
    }
  }

  /**
   * A required dependency passes every failure on; an optional one only fails to be there. On a
   * reliable disk a wanted dependency ends up present exactly when its payload delivers, and only
   * a required one reports that it does not.
   */
  method EnsureDependency(disk: Disk, c: Context, kind: Kind, d: Dependency) returns (ok: bool)
    requires Valid(disk.nodes)
    modifies disk
    ensures Valid(disk.nodes) && Within(old(disk.nodes), disk.nodes, c.cfg.cache, Base(c, kind, d))
    ensures d.scope.Host? ==> disk.nodes == old(disk.nodes)
    ensures ok && d.required ==> Ready(c, kind, d, disk.nodes)
    ensures !d.required ==> ok
    ensures disk.reliable && InPlace(c, kind, d, old(disk.nodes)) ==> ok && disk.nodes == old(disk.nodes)
    ensures disk.reliable ==> Leaves(c, kind, d, old(disk.nodes), disk.nodes)
    ensures disk.reliable ==> forall x :: Wanted(c, kind, d, x, old(disk.nodes)) ==>
      && (ok <==> !d.required || Delivers(c, kind, d, x, old(disk.nodes)))
      && (Delivers(c, kind, d, x, old(disk.nodes)) ==>
          PresentIn(disk.nodes, x) && FromBody(c, x, Delivered(c, kind, d, x, old(disk.nodes)), disk.nodes))
    ensures disk.reliable ==> forall x :: Reused(c, kind, d, x, old(disk.nodes)) ==> ok && PresentIn(disk.nodes, x)
    ensures disk.reliable && Withheld(c, kind, d, old(disk.nodes)) ==> (ok <==> !d.required)
  {
    var r := InstallDependency(disk, c, kind, d);
    ok := r.Some? || !d.required;
  }

  // ----- the whole manifest -----

  datatype Item = Item(kind: Kind, dep: Dependency)

  function Tagged(kind: Kind, deps: seq<Dependency>): (r: seq<Item>)
    ensures |r| == |deps|
  {
    seq(|deps|, i requires 0 <= i < |deps| => Item(kind, deps[i]))
  }

  /** All declarations in the order in which they are ensured. */
  function Items(m: Manifest): seq<Item> {
    Tagged(Tool, m.tools) + (Tagged(Lua, m.luas) + Tagged(Ffi, m.ffis))
  }

  /** Install roots of different kinds, probed host roots and the download cache do not overlap. */
  ghost predicate Separated(cfg: Config) {
    && Apart(cfg.tool, cfg.lua) && Apart(cfg.tool, cfg.ffi) && Apart(cfg.lua, cfg.ffi)
    && (forall k: Kind, s: Scope :: Apart(KindRoot(cfg, k, s), cfg.cache))
    && (forall k: Kind, h: Kind :: Apart(KindRoot(cfg, h, Host), KindRoot(cfg, k, Skill)))
  }

  /** Skill-owned dependencies of one kind have different normalized names. */
  ghost predicate DistinctNames(sha: Sha, items: seq<Item>) {
    forall i, j :: 0 <= i < j < |items| && SameShelf(items[i], items[j]) ==>
      NormalizeComponent(sha, items[i].dep.name) != NormalizeComponent(sha, items[j].dep.name)
  }

  predicate SameShelf(a: Item, b: Item) {
    a.kind == b.kind && a.dep.scope.Skill? && b.dep.scope.Skill?
  }

  ghost predicate Arranged(c: Context, items: seq<Item>) {
    Separated(c.cfg) && DistinctNames(c.sha, items)
  }

  lemma BasesApart(c: Context, k1: Kind, d1: Dependency, k2: Kind, d2: Dependency)
    requires Separated(c.cfg) && d2.scope.Skill?
    requires k1 == k2 && d1.scope.Skill? ==> NormalizeComponent(c.sha, d1.name) != NormalizeComponent(c.sha, d2.name)
    ensures Apart(Base(c, k1, d1), Base(c, k2, d2)) && Apart(Base(c, k1, d1), c.cfg.cache)
  {
    var r1, r2 := KindRoot(c.cfg, k1, d1.scope), KindRoot(c.cfg, k2, d2.scope);
    var b1, b2 := Base(c, k1, d1), Base(c, k2, d2);
    ApartBelow(r1, c.cfg.cache, b1, c.cfg.cache);
    if k1 == k2 && d1.scope.Skill? {
      assert b1[|r1| + 1] != b2[|r1| + 1];
      SameDepthApart(b1, b2);
    } else {
      ApartBelow(r1, r2, b1, b2);
    }
  }

  /** Ensuring `d2` leaves a ready `d1` ready. */
  lemma ReadyKept(c: Context, k1: Kind, d1: Dependency, k2: Kind, d2: Dependency, a: Nodes, b: Nodes)
    requires Separated(c.cfg) && Valid(a) && Valid(b)
    requires d2.scope.Host? ==> a == b
    requires k1 == k2 && d1.scope.Skill? && d2.scope.Skill? ==>
      NormalizeComponent(c.sha, d1.name) != NormalizeComponent(c.sha, d2.name)
    requires Within(a, b, c.cfg.cache, Base(c, k2, d2)) && Ready(c, k1, d1, a)
    ensures Ready(c, k1, d1, b)
  {
    if d2.scope.Skill? {
      var r :| Serves(c, k1, d1, r) && PresentIn(a, r);
      ServesBelow(c, k1, d1, r);
      BasesApart(c, k1, d1, k2, d2);
      ApartBelow(Base(c, k1, d1), Base(c, k2, d2), r.root, Base(c, k2, d2));
      ApartBelow(Base(c, k1, d1), c.cfg.cache, r.root, c.cfg.cache);
      PresentApart(a, b, r, c.cfg.cache, Base(c, k2, d2));
    }
  }

  /** The required ones among the first `n` declarations are all ready in `m`. */
  ghost predicate ReadyUpTo(c: Context, items: seq<Item>, m: Nodes, n: nat)
    requires n <= |items|
  {
    forall i :: 0 <= i < n && items[i].dep.required ==> Ready(c, items[i].kind, items[i].dep, m)
  }

  lemma ReadyStep(c: Context, items: seq<Item>, n: nat, a: Nodes, b: Nodes)
    requires Arranged(c, items) && Valid(a) && Valid(b)
    requires n < |items| && ReadyUpTo(c, items, a, n)
    requires items[n].dep.scope.Host? ==> a == b
    requires Within(a, b, c.cfg.cache, Base(c, items[n].kind, items[n].dep))
    requires items[n].dep.required ==> Ready(c, items[n].kind, items[n].dep, b)
    ensures ReadyUpTo(c, items, b, n + 1)
  {
    forall i | 0 <= i < n + 1 && items[i].dep.required
      ensures Ready(c, items[i].kind, items[i].dep, b)
    {
      if i < n {
        assert SameShelf(items[i], items[n]) ==>
          NormalizeComponent(c.sha, items[i].dep.name) != NormalizeComponent(c.sha, items[n].dep.name);
        ReadyKept(c, items[i].kind, items[i].dep, items[n].kind, items[n].dep, a, b);
      }
    }
  }

  ghost predicate AllInPlace(c: Context, items: seq<Item>, m: Nodes) {
    forall i :: 0 <= i < |items| ==> InPlace(c, items[i].kind, items[i].dep, m)
  }

  // ----- when the whole manifest succeeds -----

  /** The dependency is in place, or found when it is resolved, or wanted with a payload that delivers. */
  ghost predicate Good(c: Context, item: Item, m: Nodes) {
    || InPlace(c, item.kind, item.dep, m)
    || (exists x {:trigger Reused(c, item.kind, item.dep, x, m)} :: Reused(c, item.kind, item.dep, x, m))
    || exists x {:trigger Wanted(c, item.kind, item.dep, x, m)} ::
         Wanted(c, item.kind, item.dep, x, m) && Delivers(c, item.kind, item.dep, x, m)
  }

  /** No two dependencies share a file of the cache, skill lists apart, and no bundled payload is in the way. */
  ghost predicate FilesApart(c: Context, items: seq<Item>) {
    forall i, j :: 0 <= i < |items| && 0 <= j < |items| && i != j ==> OutOfTheWay(c, items[i], items[j])
  }

  /** Installing `b` touches neither the payload of `a` nor a skill list that `a` needs in another form. */
  ghost predicate OutOfTheWay(c: Context, a: Item, b: Item) {
    && PayloadFiles(c, a.kind, a.dep) !! OwnFiles(c, b.kind, b.dep)
    && ListFiles(c, b.dep) !! PayloadFiles(c, b.kind, b.dep)
    && ListFiles(c, a.dep) !! PayloadFiles(c, b.kind, b.dep)
    && var r := ResolvedRequest(c, a.kind, a.dep);
       r.Some? && r.value.payload.Bundle? ==>
         !(Base(c, b.kind, b.dep) <= r.value.payload.path) && r.value.payload.path !in OwnFiles(c, b.kind, b.dep)
  }

  lemma OwnFileInCache(c: Context, kind: Kind, d: Dependency, q: Path)
    requires q in OwnFiles(c, kind, d)
    ensures c.cfg.cache < q && |q| == |c.cfg.cache| + 1
  {
  }

  /** What an install elsewhere leaves is undisturbed. */
  lemma LeavesUndisturbed(c: Context, k1: Kind, d1: Dependency, k2: Kind, d2: Dependency, a: Nodes, b: Nodes)
    requires Leaves(c, k2, d2, a, b)
    requires Apart(Base(c, k1, d1), Base(c, k2, d2)) && Apart(Base(c, k1, d1), c.cfg.cache)
    ensures Undisturbed(a, b, Base(c, k1, d1))
  {
    var base, other, cache := Base(c, k1, d1), Base(c, k2, d2), c.cfg.cache;
    forall q | base <= q || q < base
      ensures q !in OwnFiles(c, k2, d2) && !(other <= q) && Untouched(a, b, cache, other, q)
    {
      if q in OwnFiles(c, k2, d2) {
        OwnFileInCache(c, k2, d2, q);
        FileApart(q, cache, base, q);
      }
      PrefixesOrdered(base, other, q);
      PrefixTrans(other, q, base);
    }
    forall q | base <= q
      ensures SameAt(a, b, q)
    {
      assert Untouched(a, b, cache, other, q);
      PrefixTrans(base, q, cache);
      PrefixTrans(base, q, other);
    }
    forall q | q < base
      ensures Grown(a, b, q)
    {
      assert Untouched(a, b, cache, other, q);
    }
  }

  lemma LeavesCache(c: Context, kind: Kind, d: Dependency, a: Nodes, b: Nodes)
    requires Leaves(c, kind, d, a, b) && Apart(c.cfg.cache, Base(c, kind, d))
    ensures forall q :: q <= c.cfg.cache ==> Grown(a, b, q)
  {
    forall q | q <= c.cfg.cache
      ensures Grown(a, b, q)
    {
      if q in OwnFiles(c, kind, d) {
        OwnFileInCache(c, kind, d, q);
      }
      PrefixTrans(Base(c, kind, d), q, c.cfg.cache);
      assert Untouched(a, b, c.cfg.cache, Base(c, kind, d), q);
    }
  }

  /** A cache file that is not the dependency's own stays as it is. */
  lemma LeavesFile(c: Context, kind: Kind, d: Dependency, a: Nodes, b: Nodes, q: Path)
    requires Leaves(c, kind, d, a, b) && Apart(c.cfg.cache, Base(c, kind, d))
    requires c.cfg.cache < q && q !in OwnFiles(c, kind, d) && |q| == |c.cfg.cache| + 1
    ensures SameAt(a, b, q)
  {
    var base, cache := Base(c, kind, d), c.cfg.cache;
    PrefixesOrdered(base, cache, q);
    PrefixTrans(cache, q, base);
    assert Untouched(a, b, cache, base, q);
  }

  /** Installing `other` is calm for `item`. */
  lemma LeavesCalm(c: Context, item: Item, other: Item, x: Request, a: Nodes, b: Nodes)
    requires Wanted(c, item.kind, item.dep, x, a) && Leaves(c, other.kind, other.dep, a, b)
    requires OutOfTheWay(c, item, other) && Apart(c.cfg.cache, Base(c, other.kind, other.dep))
    requires Apart(Base(c, item.kind, item.dep), Base(c, other.kind, other.dep))
    requires Apart(Base(c, item.kind, item.dep), c.cfg.cache)
    ensures Calm(c, item.kind, item.dep, x, a, b)
  {
    LeavesUndisturbed(c, item.kind, item.dep, other.kind, other.dep, a, b);
    LeavesCache(c, other.kind, other.dep, a, b);
    if x.payload.Online? {
      var f := CacheFile(c, item.kind, item.dep, x);
      assert f in PayloadFiles(c, item.kind, item.dep);
      LeavesFile(c, other.kind, other.dep, a, b, f);
    } else {
      assert Untouched(a, b, c.cfg.cache, Base(c, other.kind, other.dep), x.payload.path);
    }
    if item.dep.source.SkillList? {
      ListKept(c, item, other, a, b);
    }
  }

  lemma ListKept(c: Context, item: Item, other: Item, a: Nodes, b: Nodes)
    requires Leaves(c, other.kind, other.dep, a, b) && OutOfTheWay(c, item, other)
    requires Apart(c.cfg.cache, Base(c, other.kind, other.dep)) && item.dep.source.SkillList?
    ensures TextKept(c, a, b, IndexFile(c, item.dep.source.list))
  {
    var f := IndexFile(c, item.dep.source.list);
    assert f in ListFiles(c, item.dep);
    if f in ListFiles(c, other.dep) {
      assert f == IndexFile(c, other.dep.source.list);
    } else {
      LeavesFile(c, other.kind, other.dep, a, b, f);
    }
  }

  /** A dependency that is good stays good while another one is installed. */
  lemma GoodKept(c: Context, item: Item, other: Item, a: Nodes, b: Nodes)
    requires Good(c, item, a) && Leaves(c, other.kind, other.dep, a, b) && OutOfTheWay(c, item, other)
    requires Apart(c.cfg.cache, Base(c, other.kind, other.dep))
    requires Apart(Base(c, item.kind, item.dep), Base(c, other.kind, other.dep))
    requires Apart(Base(c, item.kind, item.dep), c.cfg.cache)
    ensures Good(c, item, b)
  {
    if InPlace(c, item.kind, item.dep, a) {
      LeavesUndisturbed(c, item.kind, item.dep, other.kind, other.dep, a, b);
      SearchKept(c, item.kind, item.dep, a, b);
    } else if x :| Reused(c, item.kind, item.dep, x, a) {
      LeavesUndisturbed(c, item.kind, item.dep, other.kind, other.dep, a, b);
      LeavesCache(c, other.kind, other.dep, a, b);
      if item.dep.source.SkillList? {
        ListKept(c, item, other, a, b);
      }
      ReusedKept(c, item.kind, item.dep, x, a, b);
    } else {
      var x :| Wanted(c, item.kind, item.dep, x, a) && Delivers(c, item.kind, item.dep, x, a);
      LeavesCalm(c, item, other, x, a, b);
      WantedKept(c, item.kind, item.dep, x, a, b);
    }
  }

  /** The first `n` declarations are ready, optional ones too, and the others are good. */
  ghost predicate Going(c: Context, items: seq<Item>, m: Nodes, n: nat) {
    && n <= |items|
    && (forall i :: 0 <= i < n ==> Ready(c, items[i].kind, items[i].dep, m))
    && forall i :: n <= i < |items| ==> Good(c, items[i], m)
  }

  lemma ItemsApart(c: Context, items: seq<Item>, i: nat, n: nat)
    requires Arranged(c, items) && i < |items| && n < |items| && i != n && items[n].dep.scope.Skill?
    ensures Apart(Base(c, items[i].kind, items[i].dep), Base(c, items[n].kind, items[n].dep))
    ensures Apart(Base(c, items[i].kind, items[i].dep), c.cfg.cache)
    ensures Apart(c.cfg.cache, Base(c, items[n].kind, items[n].dep))
  {
    var a, b := items[i], items[n];
    assert SameShelf(a, b) ==> NormalizeComponent(c.sha, a.dep.name) != NormalizeComponent(c.sha, b.dep.name) by {
      assert i < n || n < i;
      assert SameShelf(b, a) == SameShelf(a, b);
    }
    BasesApart(c, a.kind, a.dep, b.kind, b.dep);
    var root := KindRoot(c.cfg, b.kind, b.dep.scope);
    ApartBelow(root, c.cfg.cache, Base(c, b.kind, b.dep), c.cfg.cache);
  }

  lemma GoingNext(c: Context, items: seq<Item>, n: nat, a: Nodes, b: Nodes)
    requires Arranged(c, items) && FilesApart(c, items) && Valid(a) && Valid(b)
    requires n < |items| && Going(c, items, a, n)
    requires items[n].dep.scope.Host? ==> a == b
    requires Leaves(c, items[n].kind, items[n].dep, a, b)
    requires Within(a, b, c.cfg.cache, Base(c, items[n].kind, items[n].dep))
    requires Ready(c, items[n].kind, items[n].dep, b)
    ensures Going(c, items, b, n + 1)
  {
    forall i | 0 <= i < |items| && i != n
      ensures i < n ==> Ready(c, items[i].kind, items[i].dep, b)
      ensures n < i ==> Good(c, items[i], b)
    {
      if items[n].dep.scope.Skill? {
        ItemsApart(c, items, i, n);
        if n < i {
          assert OutOfTheWay(c, items[i], items[n]);
          GoodKept(c, items[i], items[n], a, b);
        } else {
          assert SameShelf(items[i], items[n]) ==>
            NormalizeComponent(c.sha, items[i].dep.name) != NormalizeComponent(c.sha, items[n].dep.name);
          ReadyKept(c, items[i].kind, items[i].dep, items[n].kind, items[n].dep, a, b);
        }
      }
    }
  }

  /** Ensuring declaration number `n` extends what is ready by one. */
  method EnsureNext(disk: Disk, c: Context, kind: Kind, d: Dependency, ghost items: seq<Item>, ghost n: nat)
    returns (ok: bool)
    requires Valid(disk.nodes) && n < |items| && items[n] == Item(kind, d)
    requires Arranged(c, items) ==> ReadyUpTo(c, items, disk.nodes, n)
    modifies disk
    ensures Valid(disk.nodes)
    ensures ok && Arranged(c, items) ==> ReadyUpTo(c, items, disk.nodes, n + 1)
    ensures disk.reliable ==> Proceeds(c, items, old(disk.nodes), disk.nodes, n, n + 1, ok)
  {
    ghost var before := disk.nodes;
    ok := EnsureDependency(disk, c, kind, d);
    if ok && Arranged(c, items) {
      ReadyStep(c, items, n, before, disk.nodes);
    }
    if disk.reliable && Arranged(c, items) && FilesApart(c, items) && Going(c, items, before, n) {
      GoodIsReady(c, items[n], before, disk.nodes, ok);
      GoingNext(c, items, n, before, disk.nodes);
    }
  }

  /** What ensuring a good dependency promised means that it is ready. */
  lemma GoodIsReady(c: Context, item: Item, a: Nodes, b: Nodes, ok: bool)
    requires Good(c, item, a)
    requires InPlace(c, item.kind, item.dep, a) ==> ok && b == a
    requires forall x :: Wanted(c, item.kind, item.dep, x, a) ==>
      && (ok <==> !item.dep.required || Delivers(c, item.kind, item.dep, x, a))
      && (Delivers(c, item.kind, item.dep, x, a) ==> PresentIn(b, x))
    requires forall x :: Reused(c, item.kind, item.dep, x, a) ==> ok && PresentIn(b, x)
    ensures ok && Ready(c, item.kind, item.dep, b)
  {
    if InPlace(c, item.kind, item.dep, a) {
      var r :| Local(c, item.kind, item.dep, a, r) && PresentIn(a, r);
      assert Serves(c, item.kind, item.dep, r);
    } else if x :| Reused(c, item.kind, item.dep, x, a) {
      assert Serves(c, item.kind, item.dep, x);
    } else {
      var x :| Wanted(c, item.kind, item.dep, x, a) && Delivers(c, item.kind, item.dep, x, a);
      assert Serves(c, item.kind, item.dep, x);
    }
  }

  /** Ensuring the declarations from `n` up to `k` goes well where they are good, and changes nothing in place. */
  ghost predicate Proceeds(c: Context, items: seq<Item>, a: Nodes, b: Nodes, n: nat, k: nat, ok: bool) {
    && (AllInPlace(c, items, a) ==> ok && b == a)
    && (Arranged(c, items) && FilesApart(c, items) && Going(c, items, a, n) ==> ok && Going(c, items, b, k))
  }

  lemma ProceedsTrans(c: Context, items: seq<Item>, a: Nodes, b: Nodes, d: Nodes, n: nat, k: nat, l: nat, ok: bool)
    requires Proceeds(c, items, a, b, n, k, true) && Proceeds(c, items, b, d, k, l, ok)
    ensures Proceeds(c, items, a, d, n, l, ok)
  {
  }

  /** A failure shows that not everything was good. */
  lemma ProceedsFails(c: Context, items: seq<Item>, a: Nodes, b: Nodes, n: nat, k: nat, l: nat)
    requires Proceeds(c, items, a, b, n, k, false)
    ensures Proceeds(c, items, a, b, n, l, false)
  {
  }

  /** One of the three loops: the dependencies of one kind, standing at `start` in the whole list. */
  method EnsureKind(disk: Disk, c: Context, kind: Kind, deps: seq<Dependency>, ghost items: seq<Item>, ghost start: nat)
    returns (ok: bool)
    requires Valid(disk.nodes)
    requires start + |deps| <= |items| && forall i :: 0 <= i < |deps| ==> items[start + i] == Item(kind, deps[i])
    requires Arranged(c, items) ==> ReadyUpTo(c, items, disk.nodes, start)
    modifies disk
    ensures Valid(disk.nodes)
    ensures ok && Arranged(c, items) ==> ReadyUpTo(c, items, disk.nodes, start + |deps|)
    ensures disk.reliable ==> Proceeds(c, items, old(disk.nodes), disk.nodes, start, start + |deps|, ok)
  {
    ok := true;
    ghost var a := disk.nodes;
    for i := 0 to |deps|
      invariant ok && Valid(disk.nodes)
      invariant Arranged(c, items) ==> ReadyUpTo(c, items, disk.nodes, start + i)
      invariant disk.reliable ==> Proceeds(c, items, a, disk.nodes, start, start + i, true)
    {
      ghost var b := disk.nodes;
      assert items[start + i] == Item(kind, deps[i]);
      ok := EnsureNext(disk, c, kind, deps[i], items, start + i);
      if disk.reliable {
        ProceedsTrans(c, items, a, b, disk.nodes, start, start + i, start + i + 1, ok);
      }
      if !ok {
        if disk.reliable {
          ProceedsFails(c, items, a, disk.nodes, start, start + i + 1, start + |deps|);
        }
        return;
      }
    }
  }

  /**
   * If the whole manifest was ensured, with roots that do not overlap and distinct names, every
   * required dependency of every kind is ready at the end, all at once: no later install, retry
   * or failed optional dependency undoes an earlier one. If all declarations are in place
   * already, nothing is touched. And it does succeed, with optional dependencies ready as well,
   * on a reliable disk where each declaration is in place or wanted with a payload that delivers.
   */
  method EnsureSkillDependencies(disk: Disk, c: Context, manifest: Manifest) returns (ok: bool)
    requires Valid(disk.nodes)
    modifies disk
    ensures Valid(disk.nodes)
    ensures ok ==> ValidSkillId(c.skill) && c.platform != "unknown"
    ensures ok && Arranged(c, Items(manifest)) ==> ReadyUpTo(c, Items(manifest), disk.nodes, |Items(manifest)|)
    ensures !ValidSkillId(c.skill) || c.platform == "unknown" ==> disk.nodes == old(disk.nodes)
    ensures ValidSkillId(c.skill) && c.platform != "unknown" && disk.reliable ==>
      Proceeds(c, Items(manifest), old(disk.nodes), disk.nodes, 0, |Items(manifest)|, ok)
  {
    if !ValidSkillId(c.skill) || c.platform == "unknown" {
      return false;
    }
    ghost var items := Items(manifest);
    ghost var a, n := old(disk.nodes), |manifest.tools|;
    ok := EnsureKind(disk, c, Tool, manifest.tools, items, 0);
    if !ok {
      if disk.reliable {
        ProceedsFails(c, items, a, disk.nodes, 0, n, |items|);
      }
      return;
    }
    ok := EnsureRest(disk, c, manifest, items, a);
  }

  /** The second and the third loop. */
  method EnsureRest(disk: Disk, c: Context, manifest: Manifest, ghost items: seq<Item>, ghost a: Nodes)
    returns (ok: bool)
    requires Valid(disk.nodes) && items == Items(manifest)
    requires Arranged(c, items) ==> ReadyUpTo(c, items, disk.nodes, |manifest.tools|)
    requires disk.reliable ==> Proceeds(c, items, a, disk.nodes, 0, |manifest.tools|, true)
    modifies disk
    ensures Valid(disk.nodes)
    ensures ok && Arranged(c, items) ==> ReadyUpTo(c, items, disk.nodes, |items|)
    ensures disk.reliable ==> Proceeds(c, items, a, disk.nodes, 0, |items|, ok)
  {
    ghost var n, b := |manifest.tools|, disk.nodes;
    ok := EnsureKind(disk, c, Lua, manifest.luas, items, n);
    if disk.reliable {
      ProceedsTrans(c, items, a, b, disk.nodes, 0, n, n + |manifest.luas|, ok);
    }
    if !ok {
      if disk.reliable {
        ProceedsFails(c, items, a, disk.nodes, 0, n + |manifest.luas|, |items|);
      }
      return;
    }
    b := disk.nodes;
    ok := EnsureKind(disk, c, Ffi, manifest.ffis, items, n + |manifest.luas|);
    if disk.reliable {
      ProceedsTrans(c, items, a, b, disk.nodes, 0, n + |manifest.luas|, |items|, ok);
    }
  }

  // ----- cleanup after an update -----

  /** The declarations that own an install root on this platform. */
  predicate OwnsRoot(d: Dependency) {
    d.scope.Skill? && d.package.Some?
  }

  function OwnRoot(c: Context, item: Item): set<Path> {
    if OwnsRoot(item.dep) then {RootFor(c, item.kind, item.dep, item.dep.version)} else {}
  }

  function Owner(c: Context): Item -> set<Path> {
    item => OwnRoot(c, item)
  }

  function UnionOf(items: seq<Item>, f: Item -> set<Path>): set<Path> {
    if items == [] then {} else UnionOf(items[..|items| - 1], f) + f(items[|items| - 1])
  }

  function RootsOf(c: Context, items: seq<Item>): set<Path> {
    UnionOf(items, Owner(c))
  }

  lemma {:induction false} UnionConcat(a: seq<Item>, b: seq<Item>, f: Item -> set<Path>)
    ensures UnionOf(a + b, f) == UnionOf(a, f) + UnionOf(b, f)
  {
    if b == [] {
      assert a + b == a;
    } else {
      UnionConcat(a, b[..|b| - 1], f);
      assert (a + b)[..|a + b| - 1] == a + b[..|b| - 1];
    }
  }

  /** What is in the union comes from some item: a declared root belongs to a declaration that owns one. */
  lemma {:induction false} UnionOwner(items: seq<Item>, f: Item -> set<Path>, p: Path) returns (i: nat)
    requires p in UnionOf(items, f)
    ensures i < |items| && p in f(items[i])
  {
    i := |items| - 1;
    if p !in f(items[i]) {
      i := UnionOwner(items[..i], f, p);
    }
  }

  method CollectKind(c: Context, kind: Kind, deps: seq<Dependency>, roots: set<Path>) returns (r: set<Path>)
    ensures r == roots + RootsOf(c, Tagged(kind, deps))
  {
    r := roots;
    ghost var items := Tagged(kind, deps);
    for i := 0 to |deps|
      invariant r == roots + UnionOf(items[..i], Owner(c))
    {
      assert items[..i + 1][..i] == items[..i];
      r := r + OwnRoot(c, Item(kind, deps[i]));
    }
    assert items[..|deps|] == items;
  }

  /** The install roots a manifest declares for this platform; none without a manifest. */
  ghost function DeclaredRoots(c: Context, manifest: Option<Manifest>): set<Path> {
    if manifest.None? then {} else RootsOf(c, Items(manifest.value))
  }

  /** The roots an update cleanup removes: declared before and not any more. */
  ghost function Stale(c: Context, previous: Option<Manifest>, current: Option<Manifest>): set<Path> {
    DeclaredRoots(c, previous) - DeclaredRoots(c, current)
  }

  method CollectRoots(c: Context, manifest: Option<Manifest>) returns (r: set<Path>)
    ensures r == DeclaredRoots(c, manifest)
  {
    if manifest.None? {
      return {};
    }
    var m := manifest.value;
    r := CollectKind(c, Tool, m.tools, {});
    r := CollectKind(c, Lua, m.luas, r);
    r := CollectKind(c, Ffi, m.ffis, r);
    UnionConcat(Tagged(Lua, m.luas), Tagged(Ffi, m.ffis), Owner(c));
    UnionConcat(Tagged(Tool, m.tools), Tagged(Lua, m.luas) + Tagged(Ffi, m.ffis), Owner(c));
  }

  ghost predicate UnderAny(roots: set<Path>, q: Path) {
    exists r :: r in roots && r <= q
  }

  /** `b` is `a` with nothing lost outside `roots`. */
  ghost predicate LostOnly(a: Nodes, b: Nodes, roots: set<Path>) {
    && (forall q :: q in b ==> q in a && b[q] == a[q])
    && (forall q :: q in a && !UnderAny(roots, q) ==> q in b)
  }

  lemma LostMore(a: Nodes, b: Nodes, d: Nodes, roots: set<Path>, root: Path)
    requires LostOnly(a, b, roots) && Pruned(b, d, root)
    ensures LostOnly(a, d, roots + {root})
  {
    forall q | q in a && !UnderAny(roots + {root}, q)
      ensures q in d
    {
      assert root in roots + {root};
      assert forall r :: r in roots ==> r in roots + {root};
    }
  }

  /** Nothing is left at or below the roots, except dangling links at the roots themselves. */
  ghost predicate Cleared(m: Nodes, roots: set<Path>) {
    forall q :: q in m && UnderAny(roots, q) ==> q in roots && Dangling(m, q)
  }

  lemma ClearedMore(a: Nodes, b: Nodes, roots: set<Path>, root: Path)
    requires Valid(a) && Cleared(a, roots) && b == Removed(a, root)
    ensures Cleared(b, roots + {root})
  {
    forall q | q in b && UnderAny(roots + {root}, q)
      ensures q in roots + {root} && Dangling(b, q)
    {
      if root <= q {
        assert q == root || Before(root, q);
      } else {
        var r :| r in roots + {root} && r <= q;
        assert UnderAny(roots, q);
      }
    }
  }

  /** Removing the stale roots one after the other, in any order. */
  method RemoveStale(disk: Disk, stale: set<Path>) returns (ok: bool)
    requires Valid(disk.nodes)
    modifies disk
    ensures Valid(disk.nodes) && LostOnly(old(disk.nodes), disk.nodes, stale)
    ensures ok ==> Cleared(disk.nodes, stale)
    ensures disk.reliable && (forall r :: r in stale ==> Removable(old(disk.nodes), r)) ==> ok
  {
    var todo := stale;
    ok := true;
    while todo != {}
      invariant todo <= stale && Valid(disk.nodes)
      invariant LostOnly(old(disk.nodes), disk.nodes, stale - todo)
      invariant Cleared(disk.nodes, stale - todo)
      decreases todo
    {
      var root :| root in todo;
      ghost var before := disk.nodes;
      ok := disk.RemoveRoot(root);
      LostMore(old(disk.nodes), before, disk.nodes, stale - todo, root);
      assert (stale - todo) + {root} == stale - (todo - {root});
      LostWiden(old(disk.nodes), disk.nodes, stale - (todo - {root}), stale);
      if !ok {
        return;
      }
      ClearedMore(before, disk.nodes, stale - todo, root);
      todo := todo - {root};
    }
    assert stale - todo == stale;
  }

  lemma LostWiden(a: Nodes, b: Nodes, roots: set<Path>, more: set<Path>)
    requires roots <= more && LostOnly(a, b, roots)
    ensures LostOnly(a, b, more)
  {
  }

  ghost predicate KindsApart(cfg: Config) {
    forall k: Kind, h: Kind :: KindRoot(cfg, k, Skill) == KindRoot(cfg, h, Skill) ||
      Apart(KindRoot(cfg, k, Skill), KindRoot(cfg, h, Skill))
  }

  /** With kind roots equal or apart, declared roots are pairwise equal or apart. */
  lemma DeclaredRootsApart(c: Context, a: Option<Manifest>, b: Option<Manifest>, x: Path, y: Path)
    requires KindsApart(c.cfg) && x in DeclaredRoots(c, a) && y in DeclaredRoots(c, b)
    ensures x == y || Apart(x, y)
  {
    var s, t := Items(a.value), Items(b.value);
    var i := UnionOwner(s, Owner(c), x);
    var j := UnionOwner(t, Owner(c), y);
    var k, h := KindRoot(c.cfg, s[i].kind, Skill), KindRoot(c.cfg, t[j].kind, Skill);
    RootsNeverNested(c.sha, k, h, c.skill, s[i].dep.name, t[j].dep.name, s[i].dep.version, t[j].dep.version,
      c.platform);
  }

  /** Nothing at or below a root the current manifest declares is under a stale root. */
  lemma CurrentIsSafe(c: Context, previous: Option<Manifest>, current: Option<Manifest>, root: Path, q: Path)
    requires KindsApart(c.cfg) && root in DeclaredRoots(c, current) && root <= q
    ensures !UnderAny(Stale(c, previous, current), q)
  {
    forall r | r in Stale(c, previous, current)
      ensures !(r <= q)
    {
      DeclaredRootsApart(c, previous, current, r, root);
      PrefixesOrdered(r, root, q);
    }
  }

  /**
   * Cleanup after an update: what is at or below a root declared by the current manifest stays,
   * nothing outside the stale roots is lost, and after success the stale roots are gone.
   */
  method CleanupUpdated(disk: Disk, c: Context, previous: Option<Manifest>, current: Option<Manifest>)
    returns (ok: bool)
    requires Valid(disk.nodes)
    modifies disk
    ensures Valid(disk.nodes)
    ensures !ValidSkillId(c.skill) || c.platform == "unknown" ==>
      disk.nodes == old(disk.nodes) && ok == ValidSkillId(c.skill)
    ensures LostOnly(old(disk.nodes), disk.nodes, Stale(c, previous, current))
    ensures ok && ValidSkillId(c.skill) && c.platform != "unknown" ==>
      Cleared(disk.nodes, Stale(c, previous, current))
    ensures disk.reliable && ValidSkillId(c.skill) ==>
      (forall r :: r in Stale(c, previous, current) ==> Removable(old(disk.nodes), r)) ==>
      ok
    ensures KindsApart(c.cfg) ==>
      forall root, q :: root in DeclaredRoots(c, current) && root <= q && q in old(disk.nodes) ==>
        q in disk.nodes && disk.nodes[q] == old(disk.nodes)[q]
  {
    if !ValidSkillId(c.skill) || c.platform == "unknown" {
      return ValidSkillId(c.skill);
    }
    var before := CollectRoots(c, previous);
    var now := CollectRoots(c, current);
    ok := RemoveStale(disk, before - now);
    if KindsApart(c.cfg) {
      forall root, q | root in DeclaredRoots(c, current) && root <= q && q in old(disk.nodes)
        ensures q in disk.nodes && disk.nodes[q] == old(disk.nodes)[q]
      {
        CurrentIsSafe(c, previous, current, root, q);
      }
    }
  }

  // ----- what cleanup does to dependencies in use -----

  lemma SameDepthBelow(a: Path, b: Path, x: Path, y: Path)
    requires (a == b || Apart(a, b)) && a <= x && b <= y && |x| - |a| == |y| - |b|
    ensures x == y || Apart(x, y)
  {
    if a != b {
      ApartBelow(a, b, x, y);
    } else if x != y {
      SameDepthApart(x, y);
    }
  }

  lemma ServingRootApart(c: Context, kind: Kind, d: Dependency, r: Request, manifest: Option<Manifest>, root: Path)
    requires KindsApart(c.cfg) && d.scope.Skill? && Serves(c, kind, d, r) && root in DeclaredRoots(c, manifest)
    ensures r.root == root || Apart(r.root, root)
  {
    ServesBelow(c, kind, d, r);
    var i := UnionOwner(Items(manifest.value), Owner(c), root);
    var item := Items(manifest.value)[i];
    var k, h := KindRoot(c.cfg, kind, Skill), KindRoot(c.cfg, item.kind, Skill);
    PrefixTrans(k, Base(c, kind, d), r.root);
    SameDepthBelow(k, h, r.root, root);
  }

  /**
   * A dependency in use survives a successful cleanup exactly when the root it is used from is
   * not stale. Cleanup compares declared versions, while an install may sit under the version of
   * a release or a probe, so that root need not be one the current manifest declares.
   */
  lemma PresentAfterCleanup(c: Context, kind: Kind, d: Dependency, r: Request, previous: Option<Manifest>,
                            current: Option<Manifest>, a: Nodes, b: Nodes)
    requires KindsApart(c.cfg) && d.scope.Skill? && Serves(c, kind, d, r)
    requires Valid(a) && Valid(b) && PresentIn(a, r)
    requires LostOnly(a, b, Stale(c, previous, current))
    requires Cleared(b, Stale(c, previous, current))
    ensures PresentIn(b, r) <==> r.root !in Stale(c, previous, current)
  {
    var exports := Exports(r);
    var stale := Stale(c, previous, current);
    DetectMeaning(a, r.root, exports);
    DetectMeaning(b, r.root, exports);
    forall j | 0 <= j < |exports|
      ensures ExportReady(b, r.root, exports[j]) <==> r.root !in stale
    {
      assert ExportReady(a, r.root, exports[j]);
      TargetBelowRoot(r.root, exports[j].target, exports[j].target);
      var p := TargetOf(r.root, exports[j].target).value;
      if r.root !in stale {
        forall x | x in stale
          ensures !(x <= p)
        {
          ServingRootApart(c, kind, d, r, previous, x);
          PrefixesOrdered(x, r.root, p);
        }
        assert !UnderAny(stale, p);
      } else {
        assert UnderAny(stale, p);
      }
    }
    assert ExportReady(b, r.root, exports[0]) <==> r.root !in stale;
  }

  lemma PlainVersion(v: string)
    requires v != "" && v[0] != 'v' && !White(v[|v| - 1])
    ensures forall tag :: ReleaseVersion(Some("v" + v), tag) == v
  {
    var s := "v" + v;
    assert s[0] == 'v' && s[|s| - 1] == v[|v| - 1] && s[1..] == v;
    assert TrimLeft(s, White) == s;
    assert Trim(s) == s;
    assert WithoutV(s) == WithoutV(v) == v;
  }

  /**
   * The stale root can be the one in use: when an update changes a release's declared version
   * from `v` to the same version spelled with a leading "v", the new declaration still installs
   * and finds it under `v`, which is then the root that cleanup removes.
   */
  lemma RespelledVersionIsStale(c: Context, d: Dependency, v: string, r: Request)
    requires v != "" && v[0] != 'v' && !White(v[|v| - 1])
    requires PortableComponent(v) && PortableComponent("v" + v)
    requires d.scope.Skill? && d.source.GithubRelease? && d.package.Some? && d.version == Some("v" + v)
    requires ResolvedFrom(c, Tool, d, r)
    ensures r.root in Stale(c, Some(Manifest([d.(version := Some(v))], [], [])), Some(Manifest([d], [], [])))
  {
    PlainVersion(v);
    var earlier := d.(version := Some(v));
    assert r.version == Some(v) && r.root == RootFor(c, Tool, earlier, Some(v));
    SingleRoot(c, earlier);
    SingleRoot(c, d);
    var x, y := RootFor(c, Tool, earlier, Some(v)), RootFor(c, Tool, d, Some("v" + v));
    assert x[|x| - 2] == v && y[|y| - 2] == "v" + v;
    assert |v| != |"v" + v|;
  }

  lemma SingleRoot(c: Context, d: Dependency)
    requires OwnsRoot(d)
    ensures DeclaredRoots(c, Some(Manifest([d], [], []))) == {RootFor(c, Tool, d, d.version)}
  {
    var items := [Item(Tool, d)];
    assert Items(Manifest([d], [], [])) == items;
    assert items[..|items| - 1] == [];
    assert RootsOf(c, items) == UnionOf([], Owner(c)) + OwnRoot(c, items[0]);
  }
}
