/**
 * Resolving, downloading and installing one dependency, with one retry after cleaning up. Calls
 * may fail at any time; on a reliable disk with nothing in the way the outcome is exact.
 */
module DependencyInstall {
  import opened Common
  import opened FileSystem
  import opened ArchiveNames
  import opened ArchiveInstall
  import opened ArchiveTrees
  import opened DependencyPaths
  import opened PayloadInstall
  import opened DownloadCache
  import opened DependencyManager

  lemma RemovalConfined(a: Nodes, b: Nodes, root: Path, p: Path)
    requires root <= p && (b == a || b == Without(a, p))
    ensures Confined(a, b, root)
  {
    forall q: Path | !(root <= q)
      ensures Spared(a, b, root, q)
    {
      PrefixTrans(root, p, q);
    }
  }

  lemma PruningConfined(a: Nodes, b: Nodes, root: Path)
    requires Pruned(a, b, root)
    ensures Confined(a, b, root)
  {
    forall q: Path | !(root <= q)
      ensures Spared(a, b, root, q)
    {
    }
  }

  // ----- what an install touches on a reliable disk -----

  /** `q` is as before, or a directory made on the way to the cache or to the root. */
  predicate Untouched(a: Nodes, b: Nodes, cache: Path, root: Path, q: Path) {
    if q in a then q in b && b[q] == a[q] else q in b ==> b[q].Dir? && (q <= cache || q < root)
  }

  /** Only the files named and what is at or below the root differ, apart from such directories. */
  ghost predicate Effect(a: Nodes, b: Nodes, files: set<Path>, cache: Path, root: Path) {
    forall q {:trigger Untouched(a, b, cache, root, q)} ::
      q !in files && !(root <= q) ==> Untouched(a, b, cache, root, q)
  }

  lemma EffectAt(a: Nodes, b: Nodes, file: Path, cache: Path, root: Path)
    requires OnlyAt(a, b, cache, file)
    ensures Effect(a, b, {file}, cache, root)
  {
    forall q | q != file && !(root <= q)
      ensures Untouched(a, b, cache, root, q)
    {
      assert Same(a, b, cache, q);
    }
  }

  lemma EffectBelow(a: Nodes, b: Nodes, files: set<Path>, cache: Path, root: Path)
    requires Confined(a, b, root)
    ensures Effect(a, b, files, cache, root)
  {
    forall q | q !in files && !(root <= q)
      ensures Untouched(a, b, cache, root, q)
    {
      assert Spared(a, b, root, q);
    }
  }

  lemma EffectTrans(a: Nodes, b: Nodes, c: Nodes, files: set<Path>, cache: Path, root: Path)
    requires Effect(a, b, files, cache, root) && Effect(b, c, files, cache, root)
    ensures Effect(a, c, files, cache, root)
  {
    forall q | q !in files && !(root <= q)
      ensures Untouched(a, c, cache, root, q)
    {
      assert Untouched(a, b, cache, root, q) && Untouched(b, c, cache, root, q);
    }
  }

  lemma EffectWiden(a: Nodes, b: Nodes, files: set<Path>, more: set<Path>, cache: Path, root: Path, deep: Path)
    requires Effect(a, b, files, cache, deep) && files <= more && root <= deep
    ensures Effect(a, b, more, cache, root)
  {
    forall q | q !in more && !(root <= q)
      ensures Untouched(a, b, cache, root, q)
    {
      PrefixTrans(root, deep, q);
      PrefixesOrdered(q, root, deep);
      assert Untouched(a, b, cache, deep, q);
    }
  }

  // ----- resolving -----

  function IndexName(c: Context, list: string): string {
    c.sha("skilllist-" + c.encode(list)) + c.suffix(list)
  }

  /** The cache file of a skill list. */
  function IndexFile(c: Context, list: string): Path {
    c.cfg.cache + [IndexName(c, list)]
  }

  /** What the lookup of a skill list hands out. */
  function ListText(c: Context, list: string, m: Nodes): (Option<seq<Byte>>, nat) {
    Obtained(c.judge, Text, Reuse, Cached(m, IndexFile(c, list)), c.server(list), 0)
  }

  /** A skill list, if the source is one, can be had: cached or from the server. */
  ghost predicate ListArrives(c: Context, d: Dependency, m: Nodes) {
    d.source.SkillList? ==>
      c.cfg.network && Usable(m, c.cfg.cache, IndexName(c, d.source.list)) && ListText(c, d.source.list, m).0.Some?
  }

  /** The tree after the declaration was resolved. */
  ghost function AfterResolve(c: Context, d: Dependency, m: Nodes): (r: Nodes) {
    if d.source.SkillList? then
      Stored(m, c.cfg.cache, IndexName(c, d.source.list), ListText(c, d.source.list, m), 0)
    else m
  }

  /** The text of the skill list, fresh or cached, is what the package is looked up in. */
  method FetchPackage(disk: Disk, c: Context, kind: Kind, d: Dependency) returns (r: Option<Package>)
    requires Valid(disk.nodes) && d.source.SkillList?
    modifies disk
    ensures Valid(disk.nodes) && Confined(old(disk.nodes), disk.nodes, c.cfg.cache)
    ensures disk.reliable ==> OnlyAt(old(disk.nodes), disk.nodes, c.cfg.cache, IndexFile(c, d.source.list))
    ensures disk.reliable ==> TextKept(c, old(disk.nodes), disk.nodes, IndexFile(c, d.source.list))
    ensures r.Some? ==> r == SourcePackage(c, kind, d)
    ensures disk.reliable && ListArrives(c, d, old(disk.nodes)) ==>
      r == SourcePackage(c, kind, d) && disk.nodes == AfterResolve(c, d, old(disk.nodes))
  {
    var path, _ := Obtain(disk, c.judge, c.cfg.cache, IndexName(c, d.source.list), c.cfg.network, Text, Reuse,
      c.server(d.source.list), 0);
    r := if path.Some? then c.index(kind, d) else None;
  }

  /** The cached text is as before, or a whole text. */
  ghost predicate TextKept(c: Context, a: Nodes, b: Nodes, p: Path) {
    SameAt(a, b, p) || (IsFile(b, p) && c.judge.utf8(b[p].body))
  }

  /** The request for a declaration that was not found locally; only a skill list uses the cache. */
  method Resolve(disk: Disk, c: Context, kind: Kind, d: Dependency) returns (r: Option<Request>)
    requires Valid(disk.nodes)
    modifies disk
    ensures Valid(disk.nodes) && Confined(old(disk.nodes), disk.nodes, c.cfg.cache)
    ensures r.Some? ==> r == ResolvedRequest(c, kind, d)
    ensures !d.source.SkillList? ==> r == ResolvedRequest(c, kind, d) && disk.nodes == old(disk.nodes)
    ensures disk.reliable && ListArrives(c, d, old(disk.nodes)) ==>
      r == ResolvedRequest(c, kind, d) && disk.nodes == AfterResolve(c, d, old(disk.nodes))
    ensures disk.reliable && d.source.SkillList? ==>
      && OnlyAt(old(disk.nodes), disk.nodes, c.cfg.cache, IndexFile(c, d.source.list))
      && TextKept(c, old(disk.nodes), disk.nodes, IndexFile(c, d.source.list))
  {
    SameConfined(disk.nodes, c.cfg.cache);
    var package := d.package;
    if d.source.SkillList? {
      package := FetchPackage(disk, c, kind, d);
    }
    r := ResolvePackage(c, kind, d, package);
  }

  /** The request for the package of the source. */
  method ResolvePackage(c: Context, kind: Kind, d: Dependency, package: Option<Package>) returns (r: Option<Request>)
    requires package.Some? ==> package == SourcePackage(c, kind, d)
    ensures r.Some? ==> r == ResolvedRequest(c, kind, d)
    ensures package == SourcePackage(c, kind, d) ==> r == ResolvedRequest(c, kind, d)
  {
    if package.None? {
      return None;
    }
    var version, tag, expected := d.version, None, None;
    var payload := PayloadFor(c, kind, d, package.value);
    if payload.NoPayload? {
      return None;
    }
    if d.source.GithubRelease? {
      var release := c.release(kind, d).value;
      version, tag, expected := Some(ReleaseVersion(d.version, release.tag)), Some(release.tag), release.digest;
    }
    if package.value.sha256.Some? {
      var declared := Lower(Trim(package.value.sha256.value));
      if expected.Some? && expected.value != declared {
        return None;
      }
      expected := Some(declared);
    }
    r := Some(Request(version, tag, RootFor(c, kind, d, version), package.value, expected, payload));
  }

  /**
   * The digest that is insisted on. A declared one that contradicts the one reported for a release
   * is refused; one of them alone is insisted on as it is, the declared one without outer spaces
   * and in lower case; and without any there is nothing to insist on.
   */
  lemma DigestsAgree(c: Context, kind: Kind, d: Dependency, package: Package)
    requires SourcePackage(c, kind, d) == Some(package) && !PayloadFor(c, kind, d, package).NoPayload?
    ensures var reported := if d.source.GithubRelease? then c.release(kind, d).value.digest else None;
      var r := ResolvedRequest(c, kind, d);
      match (package.sha256, reported)
      case (None, None) => r.Some? && r.value.expected == None
      case (None, Some(x)) => r.Some? && r.value.expected == Some(x)
      case (Some(y), None) => r.Some? && r.value.expected == Some(Lower(Trim(y)))
      case (Some(y), Some(x)) => if x == Lower(Trim(y)) then r.Some? && r.value.expected == Some(x) else r.None?
  {
  }

  // ----- payloads -----

  function CheckFor(expected: Option<string>): Check {
    if expected.Some? then Digest(expected.value) else Anything
  }

  /** The contents match the digest insisted on, if there is one. */
  predicate Trusted(c: Context, body: seq<Byte>, expected: Option<string>) {
    WellPosed(CheckFor(expected)) && Passes(c.judge, CheckFor(expected), body)
  }

  /** `now` is what unpacking the trusted contents `body`, found at `archive`, makes of `m`. */
  ghost predicate Unpacked(c: Context, r: Request, body: seq<Byte>, m: Nodes, archive: Path, resolved: seq<Resolved>,
                           now: Nodes) {
    && ResolvesTo(r.root, Exports(r), resolved)
    && Cached(m, archive) == Some(body) && Trusted(c, body, r.expected)
    && InstalledTree(m, now, r.package.format, archive, resolved, c.codec)
  }

  /** The tree is what unpacking `body` leaves. */
  ghost predicate FromBody(c: Context, r: Request, body: seq<Byte>, now: Nodes) {
    exists m: Nodes, archive: Path, resolved: seq<Resolved>
      {:trigger Unpacked(c, r, body, m, archive, resolved, now)} ::
      Unpacked(c, r, body, m, archive, resolved, now)
  }

  /** The tree is what unpacking some payload with the expected digest leaves. */
  ghost predicate InstalledFrom(c: Context, r: Request, now: Nodes) {
    exists body :: FromBody(c, r, body, now)
  }

  /** Creating the install root changes nothing about the payload. */
  lemma UnpackedBelow(c: Context, r: Request, m: Nodes, archive: Path, resolved: seq<Resolved>, now: Nodes)
    requires ResolvesTo(r.root, Exports(r), resolved)
    requires IsFile(m, archive) && Trusted(c, m[archive].body, r.expected)
    requires InstalledTree(WithDirs(m, r.root), now, r.package.format, archive, resolved, c.codec)
    ensures FromBody(c, r, m[archive].body, now)
  {
    WithDirsAt(m, r.root, archive);
    assert Unpacked(c, r, m[archive].body, WithDirs(m, r.root), archive, resolved, now);
  }

  /** The request's exports with their destinations. */
  function Targets(r: Request): (s: seq<Resolved>)
    requires forall j :: 0 <= j < |Exports(r)| ==> TargetOf(r.root, Exports(r)[j].target).Some?
    ensures ResolvesTo(r.root, Exports(r), s)
  {
    var xs := Exports(r);
    seq(|xs|, j requires 0 <= j < |xs| =>
      Resolved(xs[j].archivePath, TargetOf(r.root, xs[j].target).value, xs[j].executable))
  }

  /** All destinations resolve, and none lies below another. */
  ghost predicate Placeable(r: Request) {
    AllResolve(r.root, Exports(r)) && SideBySide(Targets(r))
  }

  /** What stands below the install root, if anything, is no obstacle, and `body` has what is needed. */
  ghost predicate Serving(c: Context, r: Request, m: Nodes, body: seq<Byte>)
    requires Placeable(r)
  {
    AllSafe(m, r.root, Targets(r)) && Supplies(body, r.package.format, Targets(r), c.codec)
  }

  lemma TargetsBelow(r: Request)
    requires AllResolve(r.root, Exports(r))
    ensures AllBelow(Targets(r), r.root)
  {
    forall j | 0 <= j < |Targets(r)|
      ensures r.root < Targets(r)[j].target
    {
      TargetBelowRoot(r.root, Exports(r)[j].target, Exports(r)[j].target);
    }
  }

  method InstallInto(disk: Disk, c: Context, r: Request, archive: Path) returns (ok: bool)
    requires Valid(disk.nodes) && Exports(r) != []
    modifies disk
    ensures Valid(disk.nodes) && Confined(old(disk.nodes), disk.nodes, r.root)
    ensures ok ==> IsFile(old(disk.nodes), archive) && PresentIn(disk.nodes, r)
    ensures ok && Trusted(c, old(disk.nodes)[archive].body, r.expected) ==>
      FromBody(c, r, old(disk.nodes)[archive].body, disk.nodes)
    ensures disk.reliable && Placeable(r) && NoObstacle(old(disk.nodes), r.root) && IsFile(old(disk.nodes), archive) ==>
      (ok <==> Serving(c, r, old(disk.nodes), old(disk.nodes)[archive].body))
  {
    var outcome := InstallPayload(disk, archive, r.package.format, r.root, Exports(r), c.codec);
    ok := outcome.Installed?;
    if ok {
      ghost var resolved :| ResolvesTo(r.root, Exports(r), resolved) && AllReady(disk.nodes, resolved)
        && InstalledTree(WithDirs(old(disk.nodes), r.root), disk.nodes, r.package.format, archive, resolved, c.codec);
      InstalledIsPresent(disk.nodes, r.root, Exports(r), resolved);
      WithDirsAt(old(disk.nodes), r.root, archive);
      assert IsFile(old(disk.nodes), archive);
      if Trusted(c, old(disk.nodes)[archive].body, r.expected) {
        UnpackedBelow(c, r, old(disk.nodes), archive, resolved, disk.nodes);
      }
    }
    if Placeable(r) {
      TargetsBelow(r);
    }
  }

  // ----- bundled payloads -----

  datatype Attempt = Done | StillMissing | Broke

  /** Detection after a successful install can fail on its own but can never report a missing export. */
  method Confirm(disk: Disk, r: Request) returns (a: Attempt)
    requires Valid(disk.nodes) && PresentIn(disk.nodes, r)
    ensures a == Done || (a == Broke && !disk.reliable)
  {
    var s := DetectOnDisk(disk, r.root, Exports(r));
    a := if s.Present? then Done else if s.Missing? then StillMissing else Broke;
  }

  /** The bundled file is there and nothing is in the way of the install root. */
  ghost predicate BundleReady(r: Request, m: Nodes)
    requires r.payload.Bundle?
  {
    Placeable(r) && NoObstacle(m, r.root) && IsFile(m, r.payload.path)
  }

  /** A bundled payload belongs to the skill, so a failed install removes the install root only. */
  method InstallBundled(disk: Disk, c: Context, r: Request) returns (a: Attempt)
    requires Valid(disk.nodes) && Exports(r) != [] && r.payload.Bundle?
    modifies disk
    ensures Valid(disk.nodes) && Confined(old(disk.nodes), disk.nodes, r.root)
    ensures a != StillMissing && (a == Done ==> PresentIn(disk.nodes, r) && InstalledFrom(c, r, disk.nodes))
    ensures disk.reliable && BundleReady(r, old(disk.nodes)) ==>
      var body := old(disk.nodes)[r.payload.path].body;
      && (a == Done <==> Trusted(c, body, r.expected) && Serving(c, r, old(disk.nodes), body))
      && (a == Done ==> FromBody(c, r, body, disk.nodes))
  {
    var payload := r.payload.path;
    SameConfined(disk.nodes, r.root);
    if r.expected.Some? {
      var fault: bool := *;
      if !IsFile(disk.nodes, payload) || (fault && !disk.reliable) ||
        !Trusted(c, disk.nodes[payload].body, r.expected) {
        return Broke;
      }
    }
    var ok := InstallInto(disk, c, r, payload);
    if !ok {
      ghost var before := disk.nodes;
      var _ := disk.RemoveRoot(r.root);
      PruningConfined(before, disk.nodes, r.root);
      ConfinedTrans(old(disk.nodes), before, disk.nodes, r.root);
      return Broke;
    }
    a := Confirm(disk, r);
  }

  // ----- downloaded payloads -----

  function KindText(kind: Kind): string {
    match kind
    case Tool => "tool"
    case Lua => "lua"
    case Ffi => "ffi"
  }

  /** The cache file of a dependency: its name depends on kind, name and platform, not on the version. */
  function CacheName(c: Context, kind: Kind, d: Dependency, url: string): string {
    c.sha(KindText(kind) + "-" + d.name + "-" + c.platform) + c.suffix(url)
  }

  function CacheFile(c: Context, kind: Kind, d: Dependency, r: Request): Path
    requires r.payload.Online?
  {
    c.cfg.cache + [CacheName(c, kind, d, r.payload.url)]
  }

  /** What a download hands out when the server has answered `from` requests for this URL already. */
  function Fetched(c: Context, r: Request, cached: Option<seq<Byte>>, from: nat): (Option<seq<Byte>>, nat)
    requires r.payload.Online?
  {
    Obtained(c.judge, CheckFor(r.expected), Reuse, cached, c.server(r.payload.url), from)
  }

  /** The network is allowed, and neither the cache nor the install root is obstructed or inside the other. */
  ghost predicate Straight(c: Context, kind: Kind, d: Dependency, r: Request, m: Nodes)
    requires r.payload.Online?
  {
    && c.cfg.network && Usable(m, c.cfg.cache, CacheName(c, kind, d, r.payload.url))
    && Apart(c.cfg.cache, r.root) && NoObstacle(m, r.root) && Placeable(r)
  }

  /** Changes below the install root leave the way and the cache as they are. */
  lemma StraightBelowRoot(c: Context, kind: Kind, d: Dependency, r: Request, a: Nodes, b: Nodes)
    requires r.payload.Online? && Straight(c, kind, d, r, a) && Confined(a, b, r.root)
    ensures Straight(c, kind, d, r, b)
    ensures SameAt(a, b, CacheFile(c, kind, d, r))
  {
    var cache, target := c.cfg.cache, CacheFile(c, kind, d, r);
    forall q | q <= cache && q in b
      ensures IsDir(b, q)
    {
      PrefixTrans(r.root, q, cache);
      assert Spared(a, b, r.root, q);
      assert q in a ==> IsDir(a, q);
    }
    forall q | q <= r.root && q in b
      ensures IsDir(b, q)
    {
      assert q != r.root ==> Spared(a, b, r.root, q);
      assert q in a ==> IsDir(a, q);
    }
    PrefixesOrdered(cache, r.root, target);
    assert target[..|cache|] == cache;
    assert target <= r.root ==> cache <= r.root by {
      PrefixTrans(cache, target, r.root);
    }
    assert Spared(a, b, r.root, target);
  }

  /** A download leaves the way to the root and what is below it as they are. */
  lemma StraightAfterDownload(c: Context, kind: Kind, d: Dependency, r: Request, a: Nodes,
                              o: (Option<seq<Byte>>, nat), from: nat, b: Nodes)
    requires r.payload.Online? && Straight(c, kind, d, r, a) && Valid(a)
    requires b == Stored(a, c.cfg.cache, CacheName(c, kind, d, r.payload.url), o, from)
    requires Confined(a, b, c.cfg.cache)
    ensures Straight(c, kind, d, r, b)
    ensures AllSafe(b, r.root, Targets(r)) <==> AllSafe(a, r.root, Targets(r))
  {
    var cache, target := c.cfg.cache, CacheFile(c, kind, d, r);
    forall q | q <= cache && q in b
      ensures IsDir(b, q)
    {
      assert |q| <= |cache| < |target|;
      WithDirsAt(a, cache, q);
      assert q in a ==> IsDir(a, q);
    }
    WithDirsAt(a, cache, target);
    forall q | q <= r.root && q in b
      ensures IsDir(b, q)
    {
      PrefixTrans(cache, q, r.root);
      assert Spared(a, b, cache, q);
      assert q in a ==> IsDir(a, q);
    }
    forall q | r.root <= q
      ensures SameAt(a, b, q)
    {
      PrefixesOrdered(cache, r.root, q);
      PrefixTrans(r.root, q, cache);
      assert Spared(a, b, cache, q);
    }
    SameBelow(a, b, r);
  }

  /** Safety of the targets depends only on what is below the root. */
  lemma SameBelow(a: Nodes, b: Nodes, r: Request)
    requires Placeable(r) && forall q :: r.root <= q ==> SameAt(a, b, q)
    ensures AllSafe(b, r.root, Targets(r)) <==> AllSafe(a, r.root, Targets(r))
  {
    forall j, q | 0 <= j < |Targets(r)| && r.root < q && q <= Targets(r)[j].target
      ensures Harmless(a, Targets(r)[j].target, q) <==> Harmless(b, Targets(r)[j].target, q)
    {
      assert SameAt(a, b, q);
    }
    forall j | 0 <= j < |Targets(r)|
      ensures SafeTarget(a, r.root, Targets(r)[j].target) <==> SafeTarget(b, r.root, Targets(r)[j].target)
    {
      var t := Targets(r)[j].target;
      assert forall q :: r.root < q && q <= t ==> (Harmless(a, t, q) <==> Harmless(b, t, q));
    }
  }

  /** The payload of the request; `from` requests for its URL were answered before. */
  method Download(disk: Disk, c: Context, kind: Kind, d: Dependency, r: Request, from: nat)
    returns (path: Option<Path>, next: nat)
    requires Valid(disk.nodes) && r.payload.Online?
    modifies disk
    ensures Valid(disk.nodes) && Confined(old(disk.nodes), disk.nodes, c.cfg.cache)
    ensures OthersKept(old(disk.nodes), disk.nodes, CacheFile(c, kind, d, r))
    ensures disk.reliable ==>
      Effect(old(disk.nodes), disk.nodes, {CacheFile(c, kind, d, r)}, c.cfg.cache, r.root)
    ensures path.Some? ==> path.value == CacheFile(c, kind, d, r) && IsFile(disk.nodes, path.value)
    ensures path.Some? ==> Trusted(c, disk.nodes[path.value].body, r.expected)
    ensures path.Some? && r.expected.Some? ==>
      c.judge.hash(disk.nodes[path.value].body) == Lower(Trim(r.expected.value))
    ensures disk.reliable && Straight(c, kind, d, r, old(disk.nodes)) ==>
      var o := Fetched(c, r, Cached(old(disk.nodes), CacheFile(c, kind, d, r)), from);
      && next == o.1 && (path.Some? <==> o.0.Some?) && Straight(c, kind, d, r, disk.nodes)
      && (path.Some? ==> Some(disk.nodes[path.value].body) == o.0)
      && (AllSafe(disk.nodes, r.root, Targets(r)) <==> AllSafe(old(disk.nodes), r.root, Targets(r)))
  {
    var name := CacheName(c, kind, d, r.payload.url);
    path, next := Obtain(disk, c.judge, c.cfg.cache, name, c.cfg.network, CheckFor(r.expected), Reuse,
      c.server(r.payload.url), from);
    if disk.reliable {
      EffectAt(old(disk.nodes), disk.nodes, CacheFile(c, kind, d, r), c.cfg.cache, r.root);
    }
    if disk.reliable && Straight(c, kind, d, r, old(disk.nodes)) {
      ghost var o := Fetched(c, r, Cached(old(disk.nodes), CacheFile(c, kind, d, r)), from);
      StraightAfterDownload(c, kind, d, r, old(disk.nodes), o, from, disk.nodes);
      WithCache(old(disk.nodes), c.cfg.cache, name);
      ObtainedSource(c, r, Cached(old(disk.nodes), CacheFile(c, kind, d, r)), from);
    }
  }

  lemma ObtainedSource(c: Context, r: Request, cached: Option<seq<Byte>>, from: nat)
    requires r.payload.Online?
    ensures var o := Fetched(c, r, cached, from); o.0.Some? && o.1 <= from ==> cached == o.0
  {
    var o := Fetched(c, r, cached, from);
    if o.0.Some? {
      ObtainedMeaning(c.judge, CheckFor(r.expected), Reuse, cached, c.server(r.payload.url), from, o.0.value, o.1);
    }
  }

  /** One download followed by one install. */
  method Fetch(disk: Disk, c: Context, kind: Kind, d: Dependency, r: Request, from: nat)
    returns (ok: bool, download: Option<Path>, next: nat)
    requires Valid(disk.nodes) && Exports(r) != [] && r.payload.Online?
    modifies disk
    ensures Valid(disk.nodes) && Within(old(disk.nodes), disk.nodes, c.cfg.cache, r.root)
    ensures disk.reliable ==>
      Effect(old(disk.nodes), disk.nodes, {CacheFile(c, kind, d, r)}, c.cfg.cache, r.root)
    ensures download.Some? ==> download.value == CacheFile(c, kind, d, r)
    ensures ok ==> download.Some? && PresentIn(disk.nodes, r) && InstalledFrom(c, r, disk.nodes)
    ensures disk.reliable && Straight(c, kind, d, r, old(disk.nodes)) ==>
      var o := Fetched(c, r, Cached(old(disk.nodes), CacheFile(c, kind, d, r)), from);
      && next == o.1 && (download.Some? <==> o.0.Some?) && Straight(c, kind, d, r, disk.nodes)
      && (download.Some? ==> IsFile(disk.nodes, download.value))
      && (ok <==> o.0.Some? && Serving(c, r, old(disk.nodes), o.0.value))
      && (ok ==> FromBody(c, r, o.0.value, disk.nodes) && Cached(disk.nodes, CacheFile(c, kind, d, r)) == o.0)
  {
    ok := false;
    download, next := Download(disk, c, kind, d, r, from);
    ghost var fetched := disk.nodes;
    WithinFirst(old(disk.nodes), fetched, c.cfg.cache, r.root);
    if download.Some? {
      ok := InstallInto(disk, c, r, download.value);
      WithinSecond(fetched, disk.nodes, c.cfg.cache, r.root);
      WithinTrans(old(disk.nodes), fetched, disk.nodes, c.cfg.cache, r.root);
      EffectBelow(fetched, disk.nodes, {CacheFile(c, kind, d, r)}, c.cfg.cache, r.root);
      if disk.reliable {
        EffectTrans(old(disk.nodes), fetched, disk.nodes, {CacheFile(c, kind, d, r)}, c.cfg.cache, r.root);
      }
      if disk.reliable && Straight(c, kind, d, r, old(disk.nodes)) {
        StraightBelowRoot(c, kind, d, r, fetched, disk.nodes);
      }
    }
  }

  lemma OpenRootRemovable(a: Nodes, b: Nodes, root: Path)
    requires NoObstacle(a, root) && forall q :: q in b ==> q in a && b[q] == a[q]
    ensures NoObstacle(b, root) && Removable(b, root) && !Dangling(b, root)
  {
    forall q | q <= root && q in b
      ensures IsDir(b, q)
    {
      assert IsDir(a, q);
    }
    assert forall k :: 0 <= k < |root| && root[..k] in b ==> IsDir(b, root[..k]);
  }

  /** Nothing is lost but the file and what is at or below the root, and nothing is new. */
  ghost predicate NothingElseGone(a: Nodes, b: Nodes, file: Path, root: Path) {
    && (forall q :: q in b ==> q in a && b[q] == a[q])
    && forall q :: q in a && q != file && !(root <= q) ==> q in b
  }

  lemma EffectOfLoss(a: Nodes, b: Nodes, file: Path, cache: Path, root: Path)
    requires NothingElseGone(a, b, file, root)
    ensures Effect(a, b, {file}, cache, root)
  {
  }

  /** Before a retry the downloaded file and the whole install root go; a dangling link at the root stays. */
  method CleanAttempt(disk: Disk, r: Request, download: Path) returns (ok: bool)
    requires Valid(disk.nodes)
    modifies disk
    ensures Valid(disk.nodes) && Within(old(disk.nodes), disk.nodes, download, r.root)
    ensures NothingElseGone(old(disk.nodes), disk.nodes, download, r.root)
    ensures ok ==> download !in disk.nodes
    ensures ok ==> forall q :: q in disk.nodes && r.root <= q ==> q == r.root && Dangling(disk.nodes, q)
    ensures disk.reliable && IsFile(old(disk.nodes), download) && NoObstacle(old(disk.nodes), r.root) ==>
      ok && disk.nodes == Without(Without(old(disk.nodes), download), r.root)
  {
    if IsFile(disk.nodes, download) {
      assert forall k :: 0 <= k < |download| ==> Before(download[..k], download);
    }
    ok := disk.RemoveFile(download);
    ghost var removed := disk.nodes;
    if NoObstacle(old(disk.nodes), r.root) {
      OpenRootRemovable(old(disk.nodes), removed, r.root);
    }
    RemovalConfined(old(disk.nodes), removed, download, download);
    WithinFirst(old(disk.nodes), removed, download, r.root);
    if ok {
      ok := disk.RemoveRoot(r.root);
      PruningConfined(removed, disk.nodes, r.root);
      WithinSecond(removed, disk.nodes, download, r.root);
      WithinTrans(old(disk.nodes), removed, disk.nodes, download, r.root);
      if ok && Dangling(removed, r.root) {
        assert forall q :: q in removed && r.root <= q ==> q == r.root || Before(r.root, q);
      }
    }
  }

  /** A clean attempt leaves the way open, with nothing cached and nothing below the root. */
  lemma StraightAfterCleaning(c: Context, kind: Kind, d: Dependency, r: Request, m: Nodes, b: Nodes)
    requires r.payload.Online? && Straight(c, kind, d, r, m)
    requires b == Without(Without(m, CacheFile(c, kind, d, r)), r.root)
    ensures Straight(c, kind, d, r, b) && AllSafe(b, r.root, Targets(r))
    ensures Cached(b, CacheFile(c, kind, d, r)).None?
  {
    assert forall q :: q in b ==> q in m && b[q] == m[q];
    OpenRootRemovable(m, b, r.root);
    OpenRootRemovable(m, b, c.cfg.cache);
    forall j | 0 <= j < |Targets(r)|
      ensures SafeTarget(b, r.root, Targets(r)[j].target)
    {
    }
  }

  // ----- the retry -----

  /** The first payload, from the cache or from the server, is good for an install into `m`. */
  ghost predicate FirstServes(c: Context, kind: Kind, d: Dependency, r: Request, m: Nodes)
    requires r.payload.Online? && Placeable(r)
  {
    var o := Fetched(c, r, Cached(m, CacheFile(c, kind, d, r)), 0);
    o.0.Some? && Serving(c, r, m, o.0.value)
  }

  /** What the second download hands out: nothing is cached any more. */
  function Refetched(c: Context, kind: Kind, d: Dependency, r: Request, m: Nodes): Option<seq<Byte>>
    requires r.payload.Online?
  {
    Fetched(c, r, None, Fetched(c, r, Cached(m, CacheFile(c, kind, d, r)), 0).1).0
  }

  /** The first download arrives, and either it serves or the second one, into a clean root, does. */
  ghost predicate Succeeds(c: Context, kind: Kind, d: Dependency, r: Request, m: Nodes)
    requires r.payload.Online? && Placeable(r)
  {
    var again := Refetched(c, kind, d, r, m);
    || FirstServes(c, kind, d, r, m)
    || (Fetched(c, r, Cached(m, CacheFile(c, kind, d, r)), 0).0.Some? && again.Some? &&
        Supplies(again.value, r.package.format, Targets(r), c.codec))
  }

  /** The payload that a successful install unpacked. */
  ghost function PayloadUsed(c: Context, kind: Kind, d: Dependency, r: Request, m: Nodes): (body: seq<Byte>)
    requires r.payload.Online? && Placeable(r) && Succeeds(c, kind, d, r, m)
  {
    if FirstServes(c, kind, d, r, m) then Fetched(c, r, Cached(m, CacheFile(c, kind, d, r)), 0).0.value
    else Refetched(c, kind, d, r, m).value
  }

  /** An install after a clean-up that left `now` went as the second payload says. */
  ghost predicate SecondDecides(c: Context, kind: Kind, d: Dependency, r: Request, from: nat, now: Nodes, ok: bool)
    requires r.payload.Online?
  {
    var again := Fetched(c, r, None, from).0;
    && Placeable(r)
    && (ok <==> again.Some? && Supplies(again.value, r.package.format, Targets(r), c.codec))
    && (ok ==> FromBody(c, r, again.value, now) && Cached(now, CacheFile(c, kind, d, r)) == again)
  }

  /** An install into `m` that left `now` went as the two payloads say, and the one used is cached. */
  ghost predicate Decides(c: Context, kind: Kind, d: Dependency, r: Request, m: Nodes, now: Nodes, done: bool)
    requires r.payload.Online?
  {
    && Placeable(r) && (done <==> Succeeds(c, kind, d, r, m))
    && (done ==>
        FromBody(c, r, PayloadUsed(c, kind, d, r, m), now) &&
        Cached(now, CacheFile(c, kind, d, r)) == Some(PayloadUsed(c, kind, d, r, m)))
  }

  lemma DecidedFirst(c: Context, kind: Kind, d: Dependency, r: Request, m: Nodes, now: Nodes, ok: bool)
    requires r.payload.Online? && Placeable(r)
    requires var o := Fetched(c, r, Cached(m, CacheFile(c, kind, d, r)), 0);
      && (ok <==> o.0.Some? && Serving(c, r, m, o.0.value))
      && (ok ==> FromBody(c, r, o.0.value, now) && Cached(now, CacheFile(c, kind, d, r)) == o.0)
      && (!ok ==> o.0.None?)
    ensures Decides(c, kind, d, r, m, now, ok)
  {
  }

  lemma DecidedSecond(c: Context, kind: Kind, d: Dependency, r: Request, m: Nodes, now: Nodes, ok: bool)
    requires r.payload.Online? && Placeable(r) && !FirstServes(c, kind, d, r, m)
    requires var o := Fetched(c, r, Cached(m, CacheFile(c, kind, d, r)), 0);
      o.0.Some? && SecondDecides(c, kind, d, r, o.1, now, ok)
    ensures Decides(c, kind, d, r, m, now, ok)
  {
  }

  /** The second half: clean up what the first attempt left, download again and install. */
  method Retry(disk: Disk, c: Context, kind: Kind, d: Dependency, r: Request, from: nat) returns (ok: bool)
    requires Valid(disk.nodes) && Exports(r) != [] && r.payload.Online?
    modifies disk
    ensures Valid(disk.nodes) && Within(old(disk.nodes), disk.nodes, c.cfg.cache, r.root)
    ensures ok ==> PresentIn(disk.nodes, r) && InstalledFrom(c, r, disk.nodes)
    ensures disk.reliable ==>
      Effect(old(disk.nodes), disk.nodes, {CacheFile(c, kind, d, r)}, c.cfg.cache, r.root)
    ensures disk.reliable && Straight(c, kind, d, r, old(disk.nodes)) ==>
      IsFile(old(disk.nodes), CacheFile(c, kind, d, r)) ==> SecondDecides(c, kind, d, r, from, disk.nodes, ok)
  {
    var download := CacheFile(c, kind, d, r);
    ok := CleanAttempt(disk, r, download);
    ghost var cleaned := disk.nodes;
    WithinWidenFirst(old(disk.nodes), cleaned, c.cfg.cache, download, r.root);
    EffectOfLoss(old(disk.nodes), cleaned, download, c.cfg.cache, r.root);
    if disk.reliable && Straight(c, kind, d, r, old(disk.nodes)) && IsFile(old(disk.nodes), download) {
      StraightAfterCleaning(c, kind, d, r, old(disk.nodes), cleaned);
    }
    if ok {
      var path, next;
      ok, path, next := Fetch(disk, c, kind, d, r, from);
      WithinTrans(old(disk.nodes), cleaned, disk.nodes, c.cfg.cache, r.root);
      if disk.reliable {
        EffectTrans(old(disk.nodes), cleaned, disk.nodes, {download}, c.cfg.cache, r.root);
      }
    }
  }

  /**
   * Download and install, and once more after cleaning up. On a reliable disk with nothing in the
   * way of the root it succeeds exactly when the first payload arrives and serves, or the second
   * one has what is needed, whatever the first attempt left below the root.
   */
  method InstallRemote(disk: Disk, c: Context, kind: Kind, d: Dependency, r: Request) returns (a: Attempt)
    requires Valid(disk.nodes) && Exports(r) != [] && r.payload.Online?
    modifies disk
    ensures Valid(disk.nodes) && Within(old(disk.nodes), disk.nodes, c.cfg.cache, r.root)
    ensures a != StillMissing && (a == Done ==> PresentIn(disk.nodes, r) && InstalledFrom(c, r, disk.nodes))
    ensures disk.reliable ==>
      Effect(old(disk.nodes), disk.nodes, {CacheFile(c, kind, d, r)}, c.cfg.cache, r.root)
    ensures disk.reliable && Straight(c, kind, d, r, old(disk.nodes)) ==>
      Decides(c, kind, d, r, old(disk.nodes), disk.nodes, a == Done)
  {
    var ok, download, next := Fetch(disk, c, kind, d, r, 0);
    ghost var m, exact := old(disk.nodes), disk.reliable && Straight(c, kind, d, r, old(disk.nodes));
    if exact && (ok || download.None?) {
      DecidedFirst(c, kind, d, r, m, disk.nodes, ok);
    }
    if download.None? {
      return Broke;
    }
    if !ok {
      ghost var first := disk.nodes;
      ok := Retry(disk, c, kind, d, r, next);
      WithinTrans(m, first, disk.nodes, c.cfg.cache, r.root);
      if disk.reliable {
        EffectTrans(m, first, disk.nodes, {CacheFile(c, kind, d, r)}, c.cfg.cache, r.root);
      }
      if exact {
        DecidedSecond(c, kind, d, r, m, disk.nodes, ok);
      }
      if !ok {
        return Broke;
      }
    }
    a := Confirm(disk, r);
  }

  // ----- which payload is installed -----

  /** With a digest, what is installed has that digest, from the cache or not, at the first try or not. */
  lemma DigestedPayload(c: Context, kind: Kind, d: Dependency, r: Request, m: Nodes)
    requires r.payload.Online? && Placeable(r) && Succeeds(c, kind, d, r, m)
    ensures Trusted(c, PayloadUsed(c, kind, d, r, m), r.expected)
    ensures r.expected.Some? ==>
      c.judge.hash(PayloadUsed(c, kind, d, r, m)) == Lower(Trim(r.expected.value)) &&
      LowerHex(Lower(Trim(r.expected.value)), 64)
  {
    var cached := Cached(m, CacheFile(c, kind, d, r));
    var first := Fetched(c, r, cached, 0);
    ObtainedMeaning(c.judge, CheckFor(r.expected), Reuse, cached, c.server(r.payload.url), 0, first.0.value, first.1);
    if !FirstServes(c, kind, d, r, m) {
      var again := Fetched(c, r, None, first.1);
      ObtainedMeaning(c.judge, CheckFor(r.expected), Reuse, None, c.server(r.payload.url), first.1, again.0.value,
        again.1);
    }
  }

  /**
   * Without a digest a cached file is taken as it is. It is what gets installed exactly when it
   * serves; only if it does not is the server asked, once.
   */
  lemma UndigestedPayload(c: Context, kind: Kind, d: Dependency, r: Request, m: Nodes, kept: seq<Byte>)
    requires r.payload.Online? && Placeable(r) && r.expected.None?
    requires Cached(m, CacheFile(c, kind, d, r)) == Some(kept)
    ensures var answer := c.server(r.payload.url)(0);
      && (Succeeds(c, kind, d, r, m) <==>
          Serving(c, r, m, kept) ||
          (answer.Some? && Supplies(answer.value, r.package.format, Targets(r), c.codec)))
      && (Succeeds(c, kind, d, r, m) ==>
          PayloadUsed(c, kind, d, r, m) == if Serving(c, r, m, kept) then kept else answer.value)
  {
  }

  /**
   * The cache file is named by kind, name and platform. So when a dependency without a digest is
   * declared in another version, and the payload of the earlier install still serves its exports,
   * that payload is installed again under the new version, whatever the server would answer now.
   */
  lemma OldPayloadReused(c1: Context, c2: Context, kind: Kind, d1: Dependency, r1: Request, m1: Nodes, now: Nodes,
                         d2: Dependency, r2: Request, m2: Nodes)
    requires r1.payload.Online? && r2.payload.Online? && Placeable(r2) && r2.expected.None? && d1.name == d2.name
    requires c1.cfg == c2.cfg && c1.sha == c2.sha && c1.platform == c2.platform
    requires c1.suffix(r1.payload.url) == c2.suffix(r2.payload.url)
    requires Decides(c1, kind, d1, r1, m1, now, true) && SameAt(now, m2, CacheFile(c1, kind, d1, r1))
    requires Serving(c2, r2, m2, PayloadUsed(c1, kind, d1, r1, m1))
    ensures Succeeds(c2, kind, d2, r2, m2)
    ensures PayloadUsed(c2, kind, d2, r2, m2) == PayloadUsed(c1, kind, d1, r1, m1)
  {
    UndigestedPayload(c2, kind, d2, r2, m2, PayloadUsed(c1, kind, d1, r1, m1));
  }
}
