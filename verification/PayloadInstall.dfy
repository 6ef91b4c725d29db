/**
 * Installing one downloaded payload for a list of declared exports, and detecting afterwards
 * whether all exports are there.
 */
module PayloadInstall {
  import opened Common
  import opened FileSystem
  import opened ArchiveNames
  import opened ArchiveInstall
  import opened ArchiveTrees

  datatype Export = Export(archivePath: string, target: string, executable: bool)

  datatype Format = Raw | Zip | TarGz

  /** How archive bytes decode; a zip directory may be unreadable as a whole. */
  datatype Codec = Codec(tar: seq<Byte> -> seq<Entry>, zip: seq<Byte> -> Option<seq<Entry>>)

  // ----- destinations -----

  ghost predicate AllResolve(root: Path, exports: seq<Export>) {
    forall j :: 0 <= j < |exports| ==> TargetOf(root, exports[j].target).Some?
  }

  ghost predicate ResolvesTo(root: Path, exports: seq<Export>, r: seq<Resolved>) {
    && |r| == |exports|
    && forall j :: 0 <= j < |exports| ==>
         && TargetOf(root, exports[j].target) == Some(r[j].target)
         && r[j].archivePath == exports[j].archivePath && r[j].executable == exports[j].executable
  }

  method ResolveTargets(root: Path, exports: seq<Export>) returns (r: Option<seq<Resolved>>)
    ensures r.Some? <==> AllResolve(root, exports)
    ensures r.Some? ==> ResolvesTo(root, exports, r.value) && AllBelow(r.value, root)
  {
    var resolved: seq<Resolved> := [];
    for j := 0 to |exports|
      invariant ResolvesTo(root, exports[..j], resolved) && AllBelow(resolved, root)
      invariant forall k :: 0 <= k < j ==> TargetOf(root, exports[k].target).Some?
    {
      var t := ResolveTarget(root, exports[j].target);
      if t.None? {
        return None;
      }
      TargetBelowRoot(root, exports[j].target, exports[j].target);
      resolved := resolved + [Resolved(exports[j].archivePath, t.value, exports[j].executable)];
      assert exports[..j + 1] == exports[..j] + [exports[j]];
    }
    assert exports[..|exports|] == exports;
    r := Some(resolved);
  }

  /** What may stand on the way to a target: directories, and a regular file at the target itself. */
  predicate Harmless(m: Nodes, target: Path, q: Path) {
    q in m ==> if q == target then m[q].File? else m[q].Dir?
  }

  ghost predicate SafeTarget(m: Nodes, root: Path, target: Path) {
    forall q {:trigger Harmless(m, target, q)} :: root < q && q <= target ==> Harmless(m, target, q)
  }

  datatype Verdict = Safe | Unsafe | Unreadable

  method CheckTarget(disk: Disk, root: Path, target: Path) returns (r: Verdict)
    requires root < target
    ensures r.Safe? ==> SafeTarget(disk.nodes, root, target)
    ensures r.Unsafe? ==> !SafeTarget(disk.nodes, root, target)
    ensures disk.reliable ==> !r.Unreadable?
  {
    for k := |root| + 1 to |target| + 1
      invariant forall q {:trigger Harmless(disk.nodes, target, q)} ::
        root < q && q <= target && |q| < k ==> Harmless(disk.nodes, target, q)
    {
      var current := target[..k];
      var fault: bool := *;
      if fault && !disk.reliable {
        return Unreadable;
      }
      assert forall q: Path :: q <= target && |q| == k ==> q == current;
      if !Harmless(disk.nodes, target, current) {
        assert root < current;
        return Unsafe;
      }
    }
    r := Safe;
  }

  method CheckTargets(disk: Disk, root: Path, exports: seq<Resolved>) returns (r: Verdict)
    requires AllBelow(exports, root)
    ensures r.Safe? ==> AllSafe(disk.nodes, root, exports)
    ensures r.Unsafe? ==> !AllSafe(disk.nodes, root, exports)
    ensures disk.reliable ==> !r.Unreadable?
  {
    for j := 0 to |exports|
      invariant forall k :: 0 <= k < j ==> SafeTarget(disk.nodes, root, exports[k].target)
    {
      r := CheckTarget(disk, root, exports[j].target);
      if !r.Safe? {
        return;
      }
    }
    r := Safe;
  }

  // ----- the install -----

  /** What a successful install of the payload at `archive` makes of the tree `m`. */
  ghost predicate InstalledTree(m: Nodes, now: Nodes, format: Format, archive: Path, exports: seq<Resolved>,
    codec: Codec) {
    IsFile(m, archive) &&
    match format
    case Raw => |exports| == 1 && now == RawTree(m, archive, exports[0])
    case Zip =>
      && codec.zip(m[archive].body).Some?
      && var entries := codec.zip(m[archive].body).value;
         && AllMatched(exports, entries) && AllOpen(exports, entries)
         && now == ZipTree(m, exports, ZipBodies(exports, entries), |exports|)
    case TarGz =>
      var entries := codec.tar(m[archive].body);
      AllDecodable(entries) && AllMatched(exports, entries) && now == TarTree(m, exports, Plan(exports, entries))
  }

  /** The payload's contents serve every export, and what is read of them decodes. */
  predicate Supplies(body: seq<Byte>, format: Format, exports: seq<Resolved>, codec: Codec) {
    match format
    case Raw => |exports| == 1
    case Zip =>
      && codec.zip(body).Some?
      && AllMatched(exports, codec.zip(body).value) && AllOpen(exports, codec.zip(body).value)
    case TarGz => AllDecodable(codec.tar(body)) && AllMatched(exports, codec.tar(body))
  }

  /** Dispatch on the archive type, after the targets were checked and the root was created. */
  method Unpack(disk: Disk, archive: Path, format: Format, exports: seq<Resolved>, codec: Codec, ghost root: Path)
    returns (r: Outcome)
    requires Valid(disk.nodes) && AllBelow(exports, root)
    modifies disk
    ensures Valid(disk.nodes) && Confined(old(disk.nodes), disk.nodes, root)
    ensures r.Installed? ==> InstalledTree(old(disk.nodes), disk.nodes, format, archive, exports, codec)
    ensures r.Installed? ==> AllReady(disk.nodes, exports)
    ensures !r.BadTarget?
    ensures r.Installed? ==> Supplies(old(disk.nodes)[archive].body, format, exports, codec)
    ensures disk.reliable && Fit(old(disk.nodes), exports) && IsFile(old(disk.nodes), archive) ==>
      (r.Installed? <==> Supplies(old(disk.nodes)[archive].body, format, exports, codec))
  {
    ghost var m := disk.nodes;
    match format {
      case Raw =>
        r := InstallRaw(disk, archive, exports, root);
      case Zip =>
        if !IsFile(disk.nodes, archive) || codec.zip(disk.nodes[archive].body).None? {
          return IoFailed;
        }
        var entries := codec.zip(disk.nodes[archive].body).value;
        r := InstallZip(disk, exports, entries, root);
        ZipReady(m, exports, entries);
      case TarGz =>
        if !IsFile(disk.nodes, archive) {
          return IoFailed;
        }
        var entries := codec.tar(disk.nodes[archive].body);
        r := InstallTar(disk, exports, entries, root);
        if r.Installed? {
          TarReady(m, exports, entries);
        }
    }
  }

  method CreateRoot(disk: Disk, root: Path) returns (ok: bool)
    requires Valid(disk.nodes)
    modifies disk
    ensures Valid(disk.nodes) && Confined(old(disk.nodes), disk.nodes, root)
    ensures ok ==> disk.nodes == WithDirs(old(disk.nodes), root)
    ensures disk.reliable && NoObstacle(old(disk.nodes), root) ==> ok
  {
    ok := disk.CreateDirAll(root);
    if disk.nodes != old(disk.nodes) {
      ghost var q :| q <= root && disk.nodes == WithDirs(old(disk.nodes), q);
      CreatedConfined(old(disk.nodes), root, q);
    }
  }

  /** No target of `exports` lies below another. */
  ghost predicate SideBySide(exports: seq<Resolved>) {
    forall i, j :: 0 <= i < |exports| && 0 <= j < |exports| ==> !Before(exports[i].target, exports[j].target)
  }

  ghost predicate AllSafe(m: Nodes, root: Path, exports: seq<Resolved>) {
    forall j :: 0 <= j < |exports| ==> SafeTarget(m, root, exports[j].target)
  }

  /** Nothing stands in the way of any target of `exports`, at the root or below it. */
  ghost predicate Free(m: Nodes, root: Path, exports: seq<Resolved>) {
    NoObstacle(m, root) && AllBelow(exports, root) && AllSafe(m, root, exports) && SideBySide(exports)
  }

  lemma OpenBelow(m: Nodes, root: Path, t: Path)
    requires NoObstacle(m, root) && root < t && SafeTarget(m, root, t)
    ensures Open(WithDirs(m, root), t)
  {
    var r := WithDirs(m, root);
    forall q | q <= t[..|t| - 1] && q in r
      ensures IsDir(r, q)
    {
      WithDirsAt(m, root, q);
      PrefixOrSame(q, t);
      PrefixesOrdered(root, q, t);
      if root < q {
        assert Harmless(m, t, q);
      } else {
        assert q in m ==> IsDir(m, q);
      }
    }
    WithDirsAt(m, root, t);
    assert Harmless(m, t, t);
  }

  lemma FreeIsFit(m: Nodes, root: Path, exports: seq<Resolved>)
    requires Free(m, root, exports)
    ensures Fit(WithDirs(m, root), exports)
  {
    forall j | 0 <= j < |exports|
      ensures Open(WithDirs(m, root), exports[j].target)
    {
      assert root < exports[j].target && SafeTarget(m, root, exports[j].target);
      OpenBelow(m, root, exports[j].target);
    }
  }

  /**
   * On a reliable disk, with nothing in the way of the root and no target below another, what
   * stands below the root and the payload decide.
   */
  ghost predicate Decided(disk: Disk, m: Nodes, archive: Path, root: Path, resolved: seq<Resolved>)
    reads disk
  {
    && disk.reliable && NoObstacle(m, root) && AllBelow(resolved, root) && SideBySide(resolved)
    && IsFile(m, archive)
  }

  lemma ResolvedOnce(root: Path, exports: seq<Export>, a: seq<Resolved>, b: seq<Resolved>)
    requires ResolvesTo(root, exports, a) && ResolvesTo(root, exports, b)
    ensures a == b
  {
    forall j | 0 <= j < |a|
      ensures a[j] == b[j]
    {
    }
  }

  /**
   * Install one payload. Nothing is written when a destination is refused; otherwise nothing
   * outside the root changes, and success means that the tree is the format's tree and that
   * every export is a file with the execute bit it asked for. With nothing in the way of the root
   * it succeeds exactly when the targets below it are safe and the payload serves every export.
   */
  method InstallPayload(disk: Disk, archive: Path, format: Format, root: Path, exports: seq<Export>, codec: Codec)
    returns (r: Outcome)
    requires Valid(disk.nodes)
    modifies disk
    ensures Valid(disk.nodes) && Confined(old(disk.nodes), disk.nodes, root)
    ensures !AllResolve(root, exports) ==> r.BadTarget?
    ensures r.BadTarget? ==> disk.nodes == old(disk.nodes)
    ensures r.BadTarget? && AllResolve(root, exports) ==>
      exists j :: 0 <= j < |exports| && !SafeTarget(old(disk.nodes), root, TargetOf(root, exports[j].target).value)
    ensures r.Installed? ==> exists resolved ::
      && ResolvesTo(root, exports, resolved) && AllSafe(old(disk.nodes), root, resolved)
      && AllReady(disk.nodes, resolved)
      && InstalledTree(WithDirs(old(disk.nodes), root), disk.nodes, format, archive, resolved, codec)
    ensures forall resolved ::
      ResolvesTo(root, exports, resolved) && Decided(disk, old(disk.nodes), archive, root, resolved) ==>
      (r.Installed? <==>
        AllSafe(old(disk.nodes), root, resolved) && Supplies(old(disk.nodes)[archive].body, format, resolved, codec))
  {
    var resolved := ResolveTargets(root, exports);
    if resolved.None? {
      return BadTarget;
    }
    forall other | ResolvesTo(root, exports, other)
      ensures other == resolved.value
    {
      ResolvedOnce(root, exports, other, resolved.value);
    }
    r := InstallResolved(disk, archive, format, root, resolved.value, codec);
  }

  /** The install once all destinations are resolved. */
  method InstallResolved(disk: Disk, archive: Path, format: Format, root: Path, resolved: seq<Resolved>, codec: Codec)
    returns (r: Outcome)
    requires Valid(disk.nodes) && AllBelow(resolved, root)
    modifies disk
    ensures Valid(disk.nodes) && Confined(old(disk.nodes), disk.nodes, root)
    ensures r.BadTarget? ==> disk.nodes == old(disk.nodes)
    ensures r.BadTarget? ==> !AllSafe(old(disk.nodes), root, resolved)
    ensures r.Installed? ==> AllSafe(old(disk.nodes), root, resolved) && AllReady(disk.nodes, resolved)
    ensures r.Installed? ==>
      InstalledTree(WithDirs(old(disk.nodes), root), disk.nodes, format, archive, resolved, codec)
    ensures Decided(disk, old(disk.nodes), archive, root, resolved) ==>
      (r.Installed? <==>
        AllSafe(old(disk.nodes), root, resolved) && Supplies(old(disk.nodes)[archive].body, format, resolved, codec))
  {
    var verdict := CheckTargets(disk, root, resolved);
    if !verdict.Safe? {
      return if verdict.Unsafe? then BadTarget else IoFailed;
    }
    var made := CreateRoot(disk, root);
    if !made {
      return IoFailed;
    }
    ghost var rooted := disk.nodes;
    WithDirsAt(old(disk.nodes), root, archive);
    if Free(old(disk.nodes), root, resolved) {
      FreeIsFit(old(disk.nodes), root, resolved);
    }
    r := Unpack(disk, archive, format, resolved, codec, root);
    ConfinedTrans(old(disk.nodes), rooted, disk.nodes, root);
  }

  // ----- detection -----

  datatype Status = Present | Missing | Failed

  function Probe(m: Nodes, p: Path, executable: bool): Status {
    if Obstructed(m, p) then Failed
    else if !IsFile(m, p) || (executable && !m[p].exec) then Missing
    else Present
  }

  function ProbeExport(m: Nodes, root: Path, x: Export): Status {
    var t := TargetOf(root, x.target);
    if t.None? then Failed else Probe(m, t.value, x.executable)
  }

  /** The exports from `k` on: the first one that is not present decides. */
  function DetectFrom(m: Nodes, root: Path, exports: seq<Export>, k: nat): Status
    requires k <= |exports|
    decreases |exports| - k
  {
    if k == |exports| then Present
    else
      var s := ProbeExport(m, root, exports[k]);
      if s.Present? then DetectFrom(m, root, exports, k + 1) else s
  }

  function Detect(m: Nodes, root: Path, exports: seq<Export>): Status {
    if exports == [] then Failed else DetectFrom(m, root, exports, 0)
  }

  /** Detection on the disk; any probe may fail on its own. */
  method DetectOnDisk(disk: Disk, root: Path, exports: seq<Export>) returns (r: Status)
    ensures r == Detect(disk.nodes, root, exports) || (r == Failed && !disk.reliable)
  {
    if exports == [] {
      return Failed;
    }
    for j := 0 to |exports|
      invariant DetectFrom(disk.nodes, root, exports, 0) == DetectFrom(disk.nodes, root, exports, j)
    {
      var fault: bool := *;
      if fault && !disk.reliable {
        return Failed;
      }
      var t := ResolveTarget(root, exports[j].target);
      if t.None? {
        return Failed;
      }
      var s := Probe(disk.nodes, t.value, exports[j].executable);
      if !s.Present? {
        return s;
      }
    }
    r := Present;
  }

  ghost predicate ExportReady(m: Nodes, root: Path, x: Export) {
    var t := TargetOf(root, x.target);
    t.Some? && IsFile(m, t.value) && (x.executable ==> Bit(m, t.value))
  }

  lemma {:induction false} DetectFromMeaning(m: Nodes, root: Path, exports: seq<Export>, k: nat)
    requires Valid(m) && k <= |exports|
    ensures DetectFrom(m, root, exports, k) == Present <==> forall j :: k <= j < |exports| ==>
      ExportReady(m, root, exports[j])
    decreases |exports| - k
  {
    if k < |exports| {
      DetectFromMeaning(m, root, exports, k + 1);
      var t := TargetOf(root, exports[k].target);
      if t.Some? && IsFile(m, t.value) {
        assert forall i :: 0 <= i < |t.value| ==> Before(t.value[..i], t.value);
      }
    }
  }

  /** On a well-formed tree, a dependency is present exactly when it has exports and all are ready. */
  lemma DetectMeaning(m: Nodes, root: Path, exports: seq<Export>)
    requires Valid(m)
    ensures Detect(m, root, exports) == Present <==>
      exports != [] && forall j :: 0 <= j < |exports| ==> ExportReady(m, root, exports[j])
  {
    DetectFromMeaning(m, root, exports, 0);
  }

  /** After a successful install of a non-empty export list, detection says Present. */
  lemma InstalledIsPresent(m: Nodes, root: Path, exports: seq<Export>, resolved: seq<Resolved>)
    requires Valid(m) && exports != []
    requires ResolvesTo(root, exports, resolved) && AllReady(m, resolved)
    ensures Detect(m, root, exports) == Present
  {
    DetectMeaning(m, root, exports);
  }
}
