/**
 * Declared dependencies, the requests that serve them, and the local search for one that is
 * installed already. What the network answers and which calls fail is arbitrary throughout.
 */
module DependencyManager {
  import opened Common
  import opened FileSystem
  import opened ArchiveNames
  import opened ArchiveInstall
  import opened ArchiveTrees
  import opened DependencyPaths
  import opened PayloadInstall
  import opened DownloadCache

  datatype Kind = Tool | Lua | Ffi

  /** Where a payload is declared to come from; a skill list is fetched from its URL. */
  datatype Source = GithubRelease | Url | SkillList(list: string) | Bundled

  /** Metadata for one platform; each source needs one of the last three fields. */
  datatype Package = Package(format: Format, exports: seq<Export>, sha256: Option<string>, asset: Option<string>,
                             url: Option<string>, path: Option<string>)

  /** A declared dependency; `package` is the one declared for the current platform, if any. */
  datatype Dependency = Dependency(name: string, version: Option<string>, scope: Scope, required: bool,
                                   source: Source, package: Option<Package>)

  datatype Manifest = Manifest(tools: seq<Dependency>, luas: seq<Dependency>, ffis: seq<Dependency>)

  datatype Config = Config(tool: Path, hostTool: Path, lua: Path, hostLua: Path, ffi: Path, hostFfi: Path,
                           cache: Path, network: bool)

  /** What a release answers: its tag, the asset's URL, and the digest it reports for it, if any. */
  datatype Release = Release(tag: string, url: string, digest: Option<string>)

  /**
   * What stays fixed during one run: configuration, skill, platform, digests and archive
   * decoders, and what the network would answer: the package that a skill list names, the release
   * and asset that a GitHub source resolves to, and the body of every request for a URL. A
   * bundled payload's path inside the skill, and a URL's file suffix and encoding, are given as well.
   */
  datatype Context = Context(cfg: Config, skill: string, platform: string, sha: Sha, judge: Judge, codec: Codec,
                             index: (Kind, Dependency) -> Option<Package>,
                             release: (Kind, Dependency) -> Option<Release>, server: string -> Answers,
                             bundled: (Kind, Dependency) -> Option<Path>, suffix: string -> string,
                             encode: string -> string)

  function KindRoot(cfg: Config, kind: Kind, scope: Scope): Path {
    match kind
    case Tool => if scope.Host? then cfg.hostTool else cfg.tool
    case Lua => if scope.Host? then cfg.hostLua else cfg.lua
    case Ffi => if scope.Host? then cfg.hostFfi else cfg.ffi
  }

  function Base(c: Context, kind: Kind, d: Dependency): Path {
    DependencyBase(c.sha, KindRoot(c.cfg, kind, d.scope), d.scope, c.skill, d.name)
  }

  function RootFor(c: Context, kind: Kind, d: Dependency, version: Option<string>): Path {
    InstallRoot(c.sha, KindRoot(c.cfg, kind, d.scope), d.scope, c.skill, d.name, version, c.platform)
  }

  /** Where the payload comes from; a request that only probes the disk names none. */
  datatype Locator = NoPayload | Online(url: string) | Bundle(path: Path)

  /** A concrete place where a dependency may be found or put. */
  datatype Request = Request(version: Option<string>, tag: Option<string>, root: Path, package: Package,
                             expected: Option<string>, payload: Locator)

  function Exports(r: Request): seq<Export> {
    seq(|r.package.exports|, i requires 0 <= i < |r.package.exports| =>
      var x := r.package.exports[i];
      Export(Template(x.archivePath, r.version, r.tag), Template(x.target, r.version, r.tag), x.executable))
  }

  /** What looking for the request's exports reports. */
  function StatusOf(m: Nodes, r: Request): Status {
    Detect(m, r.root, Exports(r))
  }

  predicate PresentIn(m: Nodes, r: Request) {
    StatusOf(m, r) == Present
  }

  // ----- which requests serve a declaration -----

  /** The root below a version directory found on disk, whose name is taken as it is. */
  function VersionRoot(c: Context, kind: Kind, d: Dependency, name: string): Path {
    Base(c, kind, d) + [name, NormalizeComponent(c.sha, c.platform)]
  }

  /** A probe derived from the declared version alone. */
  predicate Probed(c: Context, kind: Kind, d: Dependency, r: Request) {
    && d.package == Some(r.package) && r.expected.None? && r.payload.NoPayload?
    && r.version in VersionCandidates(d.version) && r.tag in TagCandidates(r.version)
    && r.root == RootFor(c, kind, d, r.version)
  }

  /** A probe of a version directory found on disk, for a declaration without a version. */
  predicate Scanned(c: Context, kind: Kind, d: Dependency, r: Request) {
    && d.package == Some(r.package) && d.version.None? && r.expected.None? && r.payload.NoPayload?
    && r.version.Some? && r.tag in TagCandidates(r.version)
    && r.root == VersionRoot(c, kind, d, r.version.value)
  }

  /** The package that the declared source names. */
  function SourcePackage(c: Context, kind: Kind, d: Dependency): Option<Package> {
    if d.source.SkillList? then c.index(kind, d) else d.package
  }

  /** The digest to insist on; `None` when a declared and a reported digest contradict each other. */
  function AgreedDigest(package: Package, reported: Option<string>): Option<Option<string>> {
    if package.sha256.None? then Some(reported)
    else
      var declared := Lower(Trim(package.sha256.value));
      if reported.None? || reported.value == declared then Some(Some(declared)) else None
  }

  /** Where the payload is, if the declaration and the network say so. */
  function PayloadFor(c: Context, kind: Kind, d: Dependency, package: Package): Locator {
    match d.source
    case GithubRelease =>
      if package.asset.Some? && c.release(kind, d).Some? then Online(c.release(kind, d).value.url) else NoPayload
    case Bundled =>
      if package.path.Some? && c.bundled(kind, d).Some? then Bundle(c.bundled(kind, d).value) else NoPayload
    case _ => if package.url.Some? then Online(package.url.value) else NoPayload
  }

  /** The request that the declared source resolves to, if it resolves. */
  function ResolvedRequest(c: Context, kind: Kind, d: Dependency): Option<Request> {
    var package := SourcePackage(c, kind, d);
    var release := if d.source.GithubRelease? then c.release(kind, d) else None;
    if package.None? || PayloadFor(c, kind, d, package.value).NoPayload? then None
    else
      var version := if release.Some? then Some(ReleaseVersion(d.version, release.value.tag)) else d.version;
      var tag := if release.Some? then Some(release.value.tag) else None;
      var digest := AgreedDigest(package.value, if release.Some? then release.value.digest else None);
      if digest.None? then None
      else Some(Request(version, tag, RootFor(c, kind, d, version), package.value, digest.value,
                        PayloadFor(c, kind, d, package.value)))
  }

  predicate ResolvedFrom(c: Context, kind: Kind, d: Dependency, r: Request) {
    ResolvedRequest(c, kind, d) == Some(r)
  }

  predicate Serves(c: Context, kind: Kind, d: Dependency, r: Request) {
    Probed(c, kind, d, r) || Scanned(c, kind, d, r) || ResolvedFrom(c, kind, d, r)
  }

  /** The dependency is there: some request that serves it detects all its exports. */
  ghost predicate Ready(c: Context, kind: Kind, d: Dependency, m: Nodes) {
    exists r {:trigger Serves(c, kind, d, r)} :: Serves(c, kind, d, r) && PresentIn(m, r)
  }

  lemma ServesBelow(c: Context, kind: Kind, d: Dependency, r: Request)
    requires Serves(c, kind, d, r)
    ensures Base(c, kind, d) <= r.root && |r.root| == |Base(c, kind, d)| + 2
  {
  }

  // ----- changes confined to two places -----

  ghost predicate Spared2(a: Nodes, b: Nodes, x: Path, y: Path, p: Path) {
    if p in a then p in b && b[p] == a[p] else p in b ==> b[p].Dir? && (p < x || p < y)
  }

  ghost predicate Within(a: Nodes, b: Nodes, x: Path, y: Path) {
    forall p {:trigger Spared2(a, b, x, y, p)} :: !(x <= p) && !(y <= p) ==> Spared2(a, b, x, y, p)
  }

  lemma WithinFirst(a: Nodes, b: Nodes, x: Path, y: Path)
    requires Confined(a, b, x)
    ensures Within(a, b, x, y)
  {
    forall p: Path | !(x <= p) && !(y <= p)
      ensures Spared2(a, b, x, y, p)
    {
      assert Spared(a, b, x, p);
    }
  }

  lemma WithinSecond(a: Nodes, b: Nodes, x: Path, y: Path)
    requires Confined(a, b, y)
    ensures Within(a, b, x, y)
  {
    forall p: Path | !(x <= p) && !(y <= p)
      ensures Spared2(a, b, x, y, p)
    {
      assert Spared(a, b, y, p);
    }
  }

  lemma WithinTrans(a: Nodes, b: Nodes, c: Nodes, x: Path, y: Path)
    requires Within(a, b, x, y) && Within(b, c, x, y)
    ensures Within(a, c, x, y)
  {
    forall p: Path | !(x <= p) && !(y <= p)
      ensures Spared2(a, c, x, y, p)
    {
      assert Spared2(a, b, x, y, p) && Spared2(b, c, x, y, p);
    }
  }

  lemma WithinWidenFirst(a: Nodes, b: Nodes, x: Path, deep: Path, y: Path)
    requires x <= deep && Within(a, b, deep, y)
    ensures Within(a, b, x, y)
  {
    forall p: Path | !(x <= p) && !(y <= p)
      ensures Spared2(a, b, x, y, p)
    {
      PrefixTrans(x, deep, p);
      PrefixesOrdered(p, x, deep);
      assert Spared2(a, b, deep, y, p);
    }
  }

  /** A present dependency survives changes in two places apart from its root. */
  lemma PresentApart(a: Nodes, b: Nodes, r: Request, x: Path, y: Path)
    requires Valid(a) && Valid(b) && Within(a, b, x, y)
    requires Apart(r.root, x) && Apart(r.root, y)
    requires PresentIn(a, r)
    ensures PresentIn(b, r)
  {
    var exports := Exports(r);
    DetectMeaning(a, r.root, exports);
    DetectMeaning(b, r.root, exports);
    forall j | 0 <= j < |exports|
      ensures ExportReady(b, r.root, exports[j])
    {
      assert ExportReady(a, r.root, exports[j]);
      TargetBelowRoot(r.root, exports[j].target, exports[j].target);
      var p := TargetOf(r.root, exports[j].target).value;
      PrefixesOrdered(x, r.root, p);
      PrefixesOrdered(y, r.root, p);
      assert Spared2(a, b, x, y, p);
    }
  }

  // ----- the local probes in the order in which they are tried -----

  /** One probe for each tag candidate. */
  function Variants(root: Path, version: Option<string>, package: Package): seq<Request> {
    var tags := TagCandidates(version);
    seq(|tags|, i requires 0 <= i < |tags| => Request(version, tags[i], root, package, None, NoPayload))
  }

  lemma VariantsMember(root: Path, version: Option<string>, package: Package, r: Request)
    ensures r in Variants(root, version, package) <==>
      && r.root == root && r.version == version && r.package == package && r.expected.None? && r.payload.NoPayload?
      && r.tag in TagCandidates(version)
  {
    var tags, rs := TagCandidates(version), Variants(root, version, package);
    if r.tag in tags {
      var i :| 0 <= i < |tags| && tags[i] == r.tag;
      assert rs[i].tag == r.tag;
    }
  }

  /** The probes of the given version candidates. */
  function ProbesOf(c: Context, kind: Kind, d: Dependency, package: Package, versions: seq<Option<string>>):
    seq<Request>
  {
    if versions == [] then []
    else
      var v := versions[|versions| - 1];
      ProbesOf(c, kind, d, package, versions[..|versions| - 1]) + Variants(RootFor(c, kind, d, v), v, package)
  }

  /** The probes of version directories in the order of their listing. */
  function ScansOf(c: Context, kind: Kind, d: Dependency, package: Package, names: seq<string>): seq<Request> {
    if names == [] then []
    else
      var name := names[|names| - 1];
      ScansOf(c, kind, d, package, names[..|names| - 1]) +
      Variants(VersionRoot(c, kind, d, name), Some(name), package)
  }

  lemma ProbesSnoc(c: Context, kind: Kind, d: Dependency, package: Package, versions: seq<Option<string>>, i: nat)
    requires i < |versions|
    ensures ProbesOf(c, kind, d, package, versions[..i + 1]) ==
      ProbesOf(c, kind, d, package, versions[..i]) + Variants(RootFor(c, kind, d, versions[i]), versions[i], package)
  {
    assert versions[..i + 1][..i] == versions[..i];
  }

  lemma ScansSnoc(c: Context, kind: Kind, d: Dependency, package: Package, names: seq<string>, name: string)
    ensures ScansOf(c, kind, d, package, names + [name]) ==
      ScansOf(c, kind, d, package, names) + Variants(VersionRoot(c, kind, d, name), Some(name), package)
  {
    assert (names + [name])[..|names|] == names;
  }

  /** The probes that are tried whatever is on the disk. */
  function FixedProbes(c: Context, kind: Kind, d: Dependency, package: Package): seq<Request> {
    ProbesOf(c, kind, d, package, VersionCandidates(d.version))
  }

  function WithScans(c: Context, kind: Kind, d: Dependency, package: Package, names: seq<string>): seq<Request> {
    FixedProbes(c, kind, d, package) + ScansOf(c, kind, d, package, names)
  }

  lemma {:induction false} ProbesMember(c: Context, kind: Kind, d: Dependency, package: Package,
                                        versions: seq<Option<string>>, r: Request)
    ensures r in ProbesOf(c, kind, d, package, versions) <==>
      && r.package == package && r.expected.None? && r.payload.NoPayload?
      && r.version in versions && r.tag in TagCandidates(r.version) && r.root == RootFor(c, kind, d, r.version)
  {
    if versions != [] {
      var v := versions[|versions| - 1];
      ProbesMember(c, kind, d, package, versions[..|versions| - 1], r);
      VariantsMember(RootFor(c, kind, d, v), v, package, r);
    }
  }

  lemma {:induction false} ScansMember(c: Context, kind: Kind, d: Dependency, package: Package, names: seq<string>,
                                       r: Request)
    ensures r in ScansOf(c, kind, d, package, names) <==>
      && r.package == package && r.expected.None? && r.payload.NoPayload?
      && r.version.Some? && r.version.value in names && r.tag in TagCandidates(r.version)
      && r.root == VersionRoot(c, kind, d, r.version.value)
  {
    if names != [] {
      var name := names[|names| - 1];
      ScansMember(c, kind, d, package, names[..|names| - 1], r);
      VariantsMember(VersionRoot(c, kind, d, name), Some(name), package, r);
    }
  }

  /** A version directory with a directory for the platform. */
  predicate Installable(m: Nodes, c: Context, kind: Kind, d: Dependency, name: string) {
    IsDir(m, Base(c, kind, d) + [name]) && IsDir(m, VersionRoot(c, kind, d, name))
  }

  /** Some listing of the version directories that have a directory for the platform. */
  ghost predicate Lists(m: Nodes, c: Context, kind: Kind, d: Dependency, names: seq<string>) {
    && (forall i, j :: 0 <= i < j < |names| ==> names[i] != names[j])
    && forall name :: name in names <==> Installable(m, c, kind, d, name)
  }

  /** A listing of some of them, the entries `todo` not having been looked at. */
  ghost predicate ListsPart(m: Nodes, c: Context, kind: Kind, d: Dependency, names: seq<string>, todo: set<string>) {
    && (forall i, j :: 0 <= i < j < |names| ==> names[i] != names[j])
    && forall i :: 0 <= i < |names| ==> names[i] !in todo && Installable(m, c, kind, d, names[i])
  }

  ghost predicate NoneMissed(m: Nodes, c: Context, kind: Kind, d: Dependency, names: seq<string>, todo: set<string>) {
    forall name :: Installable(m, c, kind, d, name) ==> name in names || name in todo
  }

  /** One entry is looked at: it joins the listing, or it is passed over. */
  lemma ListsMore(m: Nodes, c: Context, kind: Kind, d: Dependency, names: seq<string>, todo: set<string>, name: string)
    requires ListsPart(m, c, kind, d, names, todo) && name in todo
    ensures ListsPart(m, c, kind, d, names, todo - {name})
    ensures Installable(m, c, kind, d, name) ==> ListsPart(m, c, kind, d, names + [name], todo - {name})
    ensures NoneMissed(m, c, kind, d, names, todo) ==>
      NoneMissed(m, c, kind, d, if Installable(m, c, kind, d, name) then names + [name] else names, todo - {name})
  {
  }

  /** `rs` are the probes in an order in which they can be tried. */
  ghost predicate ProbeOrder(c: Context, kind: Kind, d: Dependency, m: Nodes, rs: seq<Request>) {
    if d.package.None? then rs == []
    else if d.version.Some? then rs == FixedProbes(c, kind, d, d.package.value)
    else exists names :: Lists(m, c, kind, d, names) && rs == WithScans(c, kind, d, d.package.value, names)
  }

  /** The version directory and its platform directory are there. */
  predicate Listed(m: Nodes, r: Request) {
    r.root != [] && IsDir(m, r.root[..|r.root| - 1]) && IsDir(m, r.root)
  }

  /** A request that the local search considers. */
  predicate Local(c: Context, kind: Kind, d: Dependency, m: Nodes, r: Request) {
    Probed(c, kind, d, r) || (Scanned(c, kind, d, r) && Listed(m, r))
  }

  lemma ScannedListed(m: Nodes, c: Context, kind: Kind, d: Dependency, r: Request)
    requires Scanned(c, kind, d, r)
    ensures Listed(m, r) <==> Installable(m, c, kind, d, r.version.value)
  {
    assert r.root[..|r.root| - 1] == Base(c, kind, d) + [r.version.value];
  }

  /** Every order tries exactly the local probes. */
  lemma OrderMember(c: Context, kind: Kind, d: Dependency, m: Nodes, rs: seq<Request>, r: Request)
    requires ProbeOrder(c, kind, d, m, rs)
    ensures r in rs <==> Local(c, kind, d, m, r)
  {
    if d.package.Some? {
      var package := d.package.value;
      ProbesMember(c, kind, d, package, VersionCandidates(d.version), r);
      if d.version.None? {
        var names :| Lists(m, c, kind, d, names) && rs == WithScans(c, kind, d, package, names);
        ScansMember(c, kind, d, package, names, r);
        if Scanned(c, kind, d, r) {
          ScannedListed(m, c, kind, d, r);
        }
      }
    }
  }

  /** The entries of a directory that are directories themselves. */
  function Subdirectories(m: Nodes, p: Path): set<string> {
    set q | q in m && |q| == |p| + 1 && p <= q && m[q].Dir? :: q[|p|]
  }

  lemma SubdirectoryListed(m: Nodes, p: Path, name: string)
    ensures name in Subdirectories(m, p) <==> IsDir(m, p + [name])
  {
    if name in Subdirectories(m, p) {
      var q :| q in m && |q| == |p| + 1 && p <= q && m[q].Dir? && q[|p|] == name;
      assert q == p + [name];
    }
    if IsDir(m, p + [name]) {
      assert p <= p + [name] && (p + [name])[|p|] == name;
    }
  }

  /** `rs` are the probes of listed version directories, of all of them if `all` holds. */
  ghost predicate ScansFound(m: Nodes, c: Context, kind: Kind, d: Dependency, package: Package, names: seq<string>,
                             rs: seq<Request>, all: bool)
  {
    && rs == ScansOf(c, kind, d, package, names) && ListsPart(m, c, kind, d, names, {})
    && (all ==> Lists(m, c, kind, d, names))
  }

  /**
   * Version directories on disk, in any listing order. Entries that cannot be read are skipped;
   * a reliable disk shows every version that has a directory for the platform.
   */
  method ScanVersions(disk: Disk, c: Context, kind: Kind, d: Dependency, package: Package)
    returns (rs: seq<Request>)
    requires d.package == Some(package) && d.version.None?
    ensures exists names :: ScansFound(disk.nodes, c, kind, d, package, names, rs, disk.reliable)
  {
    rs := [];
    ghost var names := [];
    var base := Base(c, kind, d);
    var todo := Subdirectories(disk.nodes, base);
    forall name
      ensures Installable(disk.nodes, c, kind, d, name) ==> name in todo
    {
      SubdirectoryListed(disk.nodes, base, name);
    }
    while todo != {}
      invariant todo <= Subdirectories(disk.nodes, base)
      invariant rs == ScansOf(c, kind, d, package, names)
      invariant ListsPart(disk.nodes, c, kind, d, names, todo)
      invariant disk.reliable ==> NoneMissed(disk.nodes, c, kind, d, names, todo)
      decreases todo
    {
      var name :| name in todo;
      SubdirectoryListed(disk.nodes, base, name);
      ListsMore(disk.nodes, c, kind, d, names, todo, name);
      todo := todo - {name};
      var fault: bool := *;
      if IsDir(disk.nodes, VersionRoot(c, kind, d, name)) && (disk.reliable || !fault) {
        rs := rs + Variants(VersionRoot(c, kind, d, name), Some(name), package);
        ScansSnoc(c, kind, d, package, names, name);
        names := names + [name];
      }
    }
    assert ScansFound(disk.nodes, c, kind, d, package, names, rs, disk.reliable);
  }

  method VersionProbes(c: Context, kind: Kind, d: Dependency, package: Package) returns (rs: seq<Request>)
    requires d.package == Some(package)
    ensures rs == FixedProbes(c, kind, d, package)
  {
    rs := [];
    var versions := VersionCandidates(d.version);
    for i := 0 to |versions|
      invariant rs == ProbesOf(c, kind, d, package, versions[..i])
    {
      rs := rs + Variants(RootFor(c, kind, d, versions[i]), versions[i], package);
      ProbesSnoc(c, kind, d, package, versions, i);
    }
    assert versions[..|versions|] == versions;
  }

  method ProbeRequests(disk: Disk, c: Context, kind: Kind, d: Dependency, package: Package) returns (rs: seq<Request>)
    requires d.package == Some(package)
    ensures forall r :: r in rs ==> Local(c, kind, d, disk.nodes, r)
    ensures forall r :: Probed(c, kind, d, r) ==> r in rs
    ensures disk.reliable ==> ProbeOrder(c, kind, d, disk.nodes, rs)
  {
    rs := VersionProbes(c, kind, d, package);
    forall r
      ensures r in rs <==> Probed(c, kind, d, r)
    {
      ProbesMember(c, kind, d, package, VersionCandidates(d.version), r);
    }
    if d.version.None? {
      var more := ScanVersions(disk, c, kind, d, package);
      ghost var names :| ScansFound(disk.nodes, c, kind, d, package, names, more, disk.reliable);
      rs := rs + more;
      forall r | r in more
        ensures Local(c, kind, d, disk.nodes, r)
      {
        ScansMember(c, kind, d, package, names, r);
        ScannedListed(disk.nodes, c, kind, d, r);
      }
    }
  }

  // ----- the search -----

  /** A present dependency lies in directories. */
  lemma PresentListed(m: Nodes, r: Request)
    requires Valid(m) && PresentIn(m, r) && r.root != []
    ensures Listed(m, r)
  {
    var exports := Exports(r);
    DetectMeaning(m, r.root, exports);
    assert ExportReady(m, r.root, exports[0]);
    TargetBelowRoot(r.root, exports[0].target, exports[0].target);
    var t := TargetOf(r.root, exports[0].target).value;
    PrefixTrans(r.root[..|r.root| - 1], r.root, t);
    assert Before(r.root, t) && Before(r.root[..|r.root| - 1], t);
  }

  datatype Search = SearchFailed | NotFound | Found(request: Request)

  /** The first probe from number `k` on that is not missing decides. */
  function SearchFrom(m: Nodes, rs: seq<Request>, k: nat): Search
    requires k <= |rs|
    decreases |rs| - k
  {
    if k == |rs| then NotFound
    else
      var s := StatusOf(m, rs[k]);
      if s.Present? then Found(rs[k]) else if s.Failed? then SearchFailed else SearchFrom(m, rs, k + 1)
  }

  function SearchIn(m: Nodes, rs: seq<Request>): Search {
    SearchFrom(m, rs, 0)
  }

  predicate AbsentIn(m: Nodes, r: Request) {
    StatusOf(m, r) == Missing
  }

  /** The search has passed over all probes before number `j`. */
  predicate PassedOver(m: Nodes, rs: seq<Request>, j: nat)
    requires j <= |rs|
  {
    forall i :: 0 <= i < j ==> AbsentIn(m, rs[i])
  }

  lemma {:induction false} SearchPasses(m: Nodes, rs: seq<Request>, j: nat)
    requires j <= |rs| && PassedOver(m, rs, j)
    ensures SearchIn(m, rs) == SearchFrom(m, rs, j)
  {
    if j > 0 {
      SearchPasses(m, rs, j - 1);
      assert AbsentIn(m, rs[j - 1]);
    }
  }

  /** The first probe that is not absent decides. */
  lemma SearchStops(m: Nodes, rs: seq<Request>, j: nat)
    requires j < |rs| && PassedOver(m, rs, j)
    ensures StatusOf(m, rs[j]).Present? ==> SearchIn(m, rs) == Found(rs[j])
    ensures StatusOf(m, rs[j]).Failed? ==> SearchIn(m, rs) == SearchFailed
  {
    SearchPasses(m, rs, j);
  }

  lemma {:induction false} SearchReaches(m: Nodes, rs: seq<Request>, k: nat) returns (j: nat)
    requires k <= |rs| && PassedOver(m, rs, k)
    ensures k <= j <= |rs| && PassedOver(m, rs, j) && (j < |rs| ==> !AbsentIn(m, rs[j]))
    ensures SearchFrom(m, rs, k) ==
      if j == |rs| then NotFound else if PresentIn(m, rs[j]) then Found(rs[j]) else SearchFailed
    decreases |rs| - k
  {
    j := k;
    if k < |rs| && AbsentIn(m, rs[k]) {
      j := SearchReaches(m, rs, k + 1);
    }
  }

  /** Looking for the request's exports meets no error. */
  predicate Detectable(m: Nodes, r: Request) {
    StatusOf(m, r) != Failed
  }

  /** No local probe of the dependency meets an error. */
  ghost predicate AllDetectable(c: Context, kind: Kind, d: Dependency, m: Nodes) {
    forall r {:trigger Detectable(m, r)} :: Local(c, kind, d, m, r) ==> Detectable(m, r)
  }

  /** Some local probe is present. */
  ghost predicate Findable(c: Context, kind: Kind, d: Dependency, m: Nodes) {
    exists r {:trigger PresentIn(m, r)} :: Local(c, kind, d, m, r) && PresentIn(m, r)
  }

  /** The dependency is installed where the local search for its declaration looks. */
  ghost predicate InPlace(c: Context, kind: Kind, d: Dependency, m: Nodes) {
    AllDetectable(c, kind, d, m) && Findable(c, kind, d, m)
  }

  /** The local search passes without an error, and finds nothing. */
  ghost predicate Lacking(c: Context, kind: Kind, d: Dependency, m: Nodes) {
    AllDetectable(c, kind, d, m) && !Findable(c, kind, d, m)
  }

  /**
   * What a search can answer: a present local probe, nothing only when no local probe is present,
   * and an error only when some local probe meets one.
   */
  lemma SearchMeaning(c: Context, kind: Kind, d: Dependency, m: Nodes, rs: seq<Request>)
    requires ProbeOrder(c, kind, d, m, rs)
    ensures var r := SearchIn(m, rs);
      && (r.Found? ==> Local(c, kind, d, m, r.request) && PresentIn(m, r.request))
      && (r.NotFound? ==> !Findable(c, kind, d, m))
      && (AllDetectable(c, kind, d, m) ==> (r.Found? <==> Findable(c, kind, d, m)) && !r.SearchFailed?)
  {
    var j := SearchReaches(m, rs, 0);
    if j < |rs| {
      OrderMember(c, kind, d, m, rs, rs[j]);
      assert Local(c, kind, d, m, rs[j]) && (PresentIn(m, rs[j]) || !Detectable(m, rs[j]));
    } else {
      NothingLocal(c, kind, d, m, rs);
    }
  }

  /** If all probes of an order are absent, no local probe is present. */
  lemma NothingLocal(c: Context, kind: Kind, d: Dependency, m: Nodes, rs: seq<Request>)
    requires ProbeOrder(c, kind, d, m, rs) && PassedOver(m, rs, |rs|)
    ensures !Findable(c, kind, d, m)
  {
    forall r | Local(c, kind, d, m, r)
      ensures !PresentIn(m, r)
    {
      OrderMember(c, kind, d, m, rs, r);
      var i :| 0 <= i < |rs| && rs[i] == r;
      assert AbsentIn(m, rs[i]);
    }
  }

  method StatusOnDisk(disk: Disk, r: Request) returns (s: Status)
    ensures s == StatusOf(disk.nodes, r) || (s == Failed && !disk.reliable)
  {
    s := DetectOnDisk(disk, r.root, Exports(r));
  }

  /** The first present request, if any; a probe error ends the search. */
  method FirstPresent(disk: Disk, rs: seq<Request>) returns (r: Search)
    ensures r.Found? ==> r.request in rs && PresentIn(disk.nodes, r.request)
    ensures r.NotFound? ==> PassedOver(disk.nodes, rs, |rs|)
    ensures disk.reliable ==> r == SearchIn(disk.nodes, rs)
  {
    for i := 0 to |rs|
      invariant PassedOver(disk.nodes, rs, i)
    {
      SearchStops(disk.nodes, rs, i);
      var s := StatusOnDisk(disk, rs[i]);
      if !s.Missing? {
        return if s.Present? then Found(rs[i]) else SearchFailed;
      }
    }
    SearchPasses(disk.nodes, rs, |rs|);
    r := NotFound;
  }

  method FindExisting(disk: Disk, c: Context, kind: Kind, d: Dependency) returns (r: Search)
    ensures r.Found? ==> Local(c, kind, d, disk.nodes, r.request) && PresentIn(disk.nodes, r.request)
    ensures r.NotFound? ==> forall x :: Probed(c, kind, d, x) ==> !PresentIn(disk.nodes, x)
    ensures disk.reliable ==> exists rs :: ProbeOrder(c, kind, d, disk.nodes, rs) && r == SearchIn(disk.nodes, rs)
  {
    if d.package.None? {
      assert ProbeOrder(c, kind, d, disk.nodes, []) && SearchIn(disk.nodes, []) == NotFound;
      return NotFound;
    }
    var rs := ProbeRequests(disk, c, kind, d, d.package.value);
    r := FirstPresent(disk, rs);
    if r.NotFound? {
      forall x | Probed(c, kind, d, x)
        ensures !PresentIn(disk.nodes, x)
      {
        var i :| 0 <= i < |rs| && rs[i] == x;
        assert AbsentIn(disk.nodes, rs[i]);
      }
    }
  }
}
