/**
 * Installing a downloaded payload below an install root: one raw file, the entries of a zip
 * archive looked up one export at a time, or one streaming pass over a tar.gz archive. The
 * specification of each form is a function on the tree, and the meaning of those functions is
 * proved path by path.
 */
module ArchiveInstall {
  import opened Common
  import opened FileSystem
  import opened ArchiveNames

  /** A declared export with its resolved destination. */
  datatype Resolved = Resolved(archivePath: string, target: Path, executable: bool)

  /** An archive member; a name that is not valid UTF-8 is `None`, and so are contents that do not decode. */
  datatype Entry = Entry(name: Option<string>, body: Option<seq<Byte>>)

  /** The contents, where they decode. */
  function Contents(e: Entry): seq<Byte> {
    if e.body.Some? then e.body.value else []
  }

  datatype Outcome = Installed | NotContained(index: nat) | BadName | BadExportCount | BadTarget | IoFailed

  // ----- single steps on the tree -----

  /** `m` after `body` was written at `p`, missing parent directories included. */
  ghost function Placed(m: Nodes, p: Path, body: seq<Byte>): (r: Nodes) {
    WithDirs(m, p)[p := File(body, Bit(m, p))]
  }

  /** `m` after the file at `source` was copied to `target`; nothing happens when they coincide. */
  ghost function CopyOne(m: Nodes, source: Path, target: Path): (r: Nodes) {
    if source == target || !IsFile(m, source) then m else WithDirs(m, target)[target := m[source]]
  }

  /** Creating the parents and then the node at `p` is the same as creating down to `p` and replacing it. */
  lemma ParentsFirst(m: Nodes, p: Path, node: Node)
    requires p != []
    ensures WithDirs(m, p[..|p| - 1])[p := node] == WithDirs(m, p)[p := node]
    ensures Bit(WithDirs(m, p[..|p| - 1]), p) == Bit(m, p)
  {
    WithDirsAt(m, p[..|p| - 1], p);
  }

  ghost function MarkOne(m: Nodes, p: Path, executable: bool): (r: Nodes) {
    if executable then Marked(m, p) else m
  }

  ghost predicate AllBelow(exports: seq<Resolved>, root: Path) {
    forall j :: 0 <= j < |exports| ==> root < exports[j].target
  }

  lemma DirsConfined(m: Nodes, root: Path, p: Path, q: Path)
    requires root < p && q <= p
    ensures Confined(m, WithDirs(m, q), root)
  {
    WithDirsAt(m, q, root);
    forall x: Path | !(root <= x)
      ensures Spared(m, WithDirs(m, q), root, x)
    {
      WithDirsAt(m, q, x);
      PrefixTrans(x, q, p);
      PrefixesOrdered(x, root, p);
    }
  }

  lemma OneChange(a: Nodes, b: Nodes, root: Path, p: Path)
    requires root < p
    requires forall q :: q != p ==> (q in a <==> q in b) && (q in a ==> a[q] == b[q])
    ensures Confined(a, b, root)
  {
    forall q: Path | !(root <= q)
      ensures Spared(a, b, root, q)
    {
    }
  }

  /** Nothing stands in the way of a file at `p`. */
  ghost predicate Open(m: Nodes, p: Path) {
    p != [] && NoObstacle(m, p[..|p| - 1]) && (p in m ==> m[p].File?)
  }

  /** All targets can be written, in any order: nothing is in the way, and no target lies below another. */
  ghost predicate Fit(m: Nodes, exports: seq<Resolved>) {
    && (forall j {:trigger Open(m, exports[j].target)} :: 0 <= j < |exports| ==> Open(m, exports[j].target))
    && forall i, j :: 0 <= i < |exports| && 0 <= j < |exports| ==> !Before(exports[i].target, exports[j].target)
  }

  lemma StillOpen(m: Nodes, p: Path, t: Path, node: Node)
    requires Open(m, p) && Open(m, t) && node.File? && !Before(p, t) && !Before(t, p)
    ensures Open(WithDirs(m, p)[p := node], t)
  {
    var r := WithDirs(m, p)[p := node];
    forall q | q <= t[..|t| - 1] && q in r
      ensures IsDir(r, q)
    {
      WithDirsAt(m, p, q);
      PrefixOrSame(q, t);
      assert q in m ==> IsDir(m, q);
    }
    WithDirsAt(m, p, t);
    assert t <= p ==> t == p || Before(t, p);
  }

  /** Writing one target leaves all of them open. */
  lemma StillFit(m: Nodes, exports: seq<Resolved>, k: nat, node: Node)
    requires Fit(m, exports) && k < |exports| && node.File?
    ensures Fit(WithDirs(m, exports[k].target)[exports[k].target := node], exports)
  {
    var p := exports[k].target;
    forall j | 0 <= j < |exports|
      ensures Open(WithDirs(m, p)[p := node], exports[j].target)
    {
      assert Open(m, p) && Open(m, exports[j].target);
      assert !Before(p, exports[j].target) && !Before(exports[j].target, p);
      StillOpen(m, p, exports[j].target, node);
    }
  }

  lemma MarkedFit(m: Nodes, exports: seq<Resolved>, p: Path, executable: bool)
    requires Fit(m, exports)
    ensures Fit(MarkOne(m, p, executable), exports)
  {
    var r := MarkOne(m, p, executable);
    forall j | 0 <= j < |exports|
      ensures Open(r, exports[j].target)
    {
      var t := exports[j].target;
      assert Open(m, t);
      forall q | q <= t[..|t| - 1] && q in r
        ensures IsDir(r, q)
      {
        assert q in m && IsDir(m, q);
      }
    }
  }

  method MakeParents(disk: Disk, p: Path, ghost root: Path) returns (ok: bool)
    requires Valid(disk.nodes) && root < p
    modifies disk
    ensures Valid(disk.nodes) && Confined(old(disk.nodes), disk.nodes, root)
    ensures ok ==> disk.nodes == WithDirs(old(disk.nodes), p[..|p| - 1]) && IsDir(disk.nodes, p[..|p| - 1])
    ensures disk.reliable && NoObstacle(old(disk.nodes), p[..|p| - 1]) ==> ok
  {
    var parent := p[..|p| - 1];
    ok := disk.CreateDirAll(parent);
    if disk.nodes != old(disk.nodes) {
      ghost var q :| q <= parent && disk.nodes == WithDirs(old(disk.nodes), q);
      PrefixTrans(q, parent, p);
      DirsConfined(old(disk.nodes), root, p, q);
    }
  }

  /** Directory creation and a streamed write, as for a zip entry or the first tar target. */
  method Place(disk: Disk, p: Path, body: seq<Byte>, ghost root: Path) returns (ok: bool)
    requires Valid(disk.nodes) && root < p
    modifies disk
    ensures Valid(disk.nodes) && Confined(old(disk.nodes), disk.nodes, root)
    ensures ok ==> disk.nodes == Placed(old(disk.nodes), p, body)
    ensures disk.reliable && Open(old(disk.nodes), p) ==> ok
  {
    ok := MakeParents(disk, p, root);
    ghost var parents := disk.nodes;
    if ok {
      WithDirsAt(old(disk.nodes), p[..|p| - 1], p);
      ok := disk.Write(p, body);
      OneChange(parents, disk.nodes, root, p);
      ConfinedTrans(old(disk.nodes), parents, disk.nodes, root);
      ParentsFirst(old(disk.nodes), p, File(body, Bit(old(disk.nodes), p)));
    }
  }

  method CopyWithParents(disk: Disk, source: Path, target: Path, ghost root: Path) returns (ok: bool)
    requires Valid(disk.nodes) && root < target
    modifies disk
    ensures Valid(disk.nodes) && Confined(old(disk.nodes), disk.nodes, root)
    ensures ok ==> IsFile(old(disk.nodes), source)
    ensures ok && source != target ==> disk.nodes == CopyOne(old(disk.nodes), source, target)
    ensures ok ==> disk.nodes == WithDirs(old(disk.nodes), target)[target :=
      File(if source == target then [] else old(disk.nodes)[source].body, old(disk.nodes)[source].exec)]
    ensures disk.reliable && Open(old(disk.nodes), target) && IsFile(old(disk.nodes), source) ==> ok
  {
    ok := MakeParents(disk, target, root);
    ghost var parents := disk.nodes;
    if ok {
      WithDirsAt(old(disk.nodes), target[..|target| - 1], target);
      WithDirsAt(old(disk.nodes), target[..|target| - 1], source);
      ok := disk.Copy(source, target);
      OneChange(parents, disk.nodes, root, target);
      ConfinedTrans(old(disk.nodes), parents, disk.nodes, root);
      if ok {
        ParentsFirst(old(disk.nodes), target, disk.nodes[target]);
      }
    }
  }

  method MarkIfNeeded(disk: Disk, p: Path, executable: bool, ghost root: Path) returns (ok: bool)
    requires Valid(disk.nodes) && root < p
    modifies disk
    ensures Valid(disk.nodes) && Confined(old(disk.nodes), disk.nodes, root)
    ensures ok ==> disk.nodes == MarkOne(old(disk.nodes), p, executable)
    ensures disk.reliable && p in old(disk.nodes) ==> ok
  {
    ok := true;
    if executable {
      ok := disk.MarkExecutable(p);
    }
    OneChange(old(disk.nodes), disk.nodes, root, p);
  }

  // ----- tar.gz: one pass over the entries -----

  predicate Hits(exports: seq<Resolved>, e: Entry, j: nat)
    requires j < |exports|
  {
    MatchesName(e.name, exports[j].archivePath)
  }

  /** The exports from `k` on that consume entry `e`, in declaration order. */
  function Matching(exports: seq<Resolved>, e: Entry, k: nat): (r: seq<nat>)
    requires k <= |exports|
    ensures forall x :: 0 <= x < |r| ==> k <= r[x] < |exports| && Hits(exports, e, r[x])
    ensures forall j :: k <= j < |exports| && Hits(exports, e, j) ==> j in r
    ensures r != [] ==> forall j :: k <= j < r[0] ==> !Hits(exports, e, j)
    decreases |exports| - k
  {
    if k == |exports| then []
    else if Hits(exports, e, k) then [k] + Matching(exports, e, k + 1)
    else Matching(exports, e, k + 1)
  }

  /** The first `n` of the exports `ix` are copied from `source`. */
  ghost function CopyAll(m: Nodes, exports: seq<Resolved>, source: Path, ix: seq<nat>, n: nat): (r: Nodes)
    requires n <= |ix| && forall x :: 0 <= x < |ix| ==> ix[x] < |exports|
  {
    if n == 0 then m else CopyOne(CopyAll(m, exports, source, ix, n - 1), source, exports[ix[n - 1]].target)
  }

  /** One archive entry as the pass sees it: the exports that consume it, and its contents. */
  datatype Feed = Feed(ix: seq<nat>, body: seq<Byte>)

  ghost predicate Fits(exports: seq<Resolved>, f: Feed) {
    forall x :: 0 <= x < |f.ix| ==> f.ix[x] < |exports|
  }

  ghost predicate AllFit(exports: seq<Resolved>, plan: seq<Feed>) {
    forall i :: 0 <= i < |plan| ==> Fits(exports, plan[i])
  }

  function FeedOf(exports: seq<Resolved>, e: Entry): (f: Feed)
    ensures Fits(exports, f)
  {
    Feed(Matching(exports, e, 0), Contents(e))
  }

  function Plan(exports: seq<Resolved>, entries: seq<Entry>): (r: seq<Feed>)
    ensures |r| == |entries| && AllFit(exports, r)
  {
    seq(|entries|, i requires 0 <= i < |entries| => FeedOf(exports, entries[i]))
  }

  /** The first export's target receives the contents, and the others copy it. */
  ghost function ExtractOne(m: Nodes, exports: seq<Resolved>, f: Feed): (r: Nodes)
    requires Fits(exports, f)
  {
    if f.ix == [] then m
    else
      var first := exports[f.ix[0]].target;
      CopyAll(Placed(m, first, f.body), exports, first, f.ix, |f.ix|)
  }

  ghost function ExtractAll(m: Nodes, exports: seq<Resolved>, plan: seq<Feed>, n: nat): (r: Nodes)
    requires n <= |plan| && AllFit(exports, plan)
  {
    if n == 0 then m else ExtractOne(ExtractAll(m, exports, plan, n - 1), exports, plan[n - 1])
  }

  type Mark = (Path, bool)

  function MarksOf(exports: seq<Resolved>, ix: seq<nat>): (r: seq<Mark>)
    requires forall x :: 0 <= x < |ix| ==> ix[x] < |exports|
  {
    seq(|ix|, x requires 0 <= x < |ix| => (exports[ix[x]].target, exports[ix[x]].executable))
  }

  ghost function Marks(exports: seq<Resolved>, plan: seq<Feed>, n: nat): (r: seq<Mark>)
    requires n <= |plan| && AllFit(exports, plan)
  {
    if n == 0 then [] else Marks(exports, plan, n - 1) + MarksOf(exports, plan[n - 1].ix)
  }

  ghost function MarkAll(m: Nodes, marks: seq<Mark>, n: nat): (r: Nodes)
    requires n <= |marks|
  {
    if n == 0 then m else MarkOne(MarkAll(m, marks, n - 1), marks[n - 1].0, marks[n - 1].1)
  }

  /** Every entry extracted in archive order, and every file marked that some served export wants executable. */
  ghost function TarTree(m: Nodes, exports: seq<Resolved>, plan: seq<Feed>): (r: Nodes)
    requires AllFit(exports, plan)
  {
    var marks := Marks(exports, plan, |plan|);
    MarkAll(ExtractAll(m, exports, plan, |plan|), marks, |marks|)
  }

  predicate Matched(exports: seq<Resolved>, entries: seq<Entry>, n: nat, j: nat)
    requires j < |exports| && n <= |entries|
  {
    exists i {:trigger Hits(exports, entries[i], j)} :: 0 <= i < n && Hits(exports, entries[i], j)
  }

  predicate AllNamed(entries: seq<Entry>) {
    forall i :: 0 <= i < |entries| ==> entries[i].name.Some?
  }

  /** The whole stream can be read: skipping an entry reads its contents too. */
  predicate AllRead(entries: seq<Entry>) {
    forall i :: 0 <= i < |entries| ==> entries[i].body.Some?
  }

  predicate AllDecodable(entries: seq<Entry>) {
    AllNamed(entries) && AllRead(entries)
  }

  /** The first `n` exports are each served by some entry. */
  predicate MatchedUpTo(exports: seq<Resolved>, entries: seq<Entry>, n: nat)
    requires n <= |exports|
  {
    forall j :: 0 <= j < n ==> Matched(exports, entries, |entries|, j)
  }

  predicate AllMatched(exports: seq<Resolved>, entries: seq<Entry>) {
    MatchedUpTo(exports, entries, |exports|)
  }

  /** `j` is the first export that no entry serves. */
  predicate FirstLacking(exports: seq<Resolved>, entries: seq<Entry>, j: nat) {
    j < |exports| && MatchedUpTo(exports, entries, j) && !Matched(exports, entries, |entries|, j)
  }

  /** The exports after the first copy the first one's target. */
  method CopyRest(disk: Disk, exports: seq<Resolved>, first: Path, ix: seq<nat>, ghost root: Path)
    returns (ok: bool)
    requires Valid(disk.nodes) && AllBelow(exports, root) && IsFile(disk.nodes, first)
    requires ix != [] && (forall x :: 0 <= x < |ix| ==> ix[x] < |exports|) && exports[ix[0]].target == first
    modifies disk
    ensures Valid(disk.nodes) && Confined(old(disk.nodes), disk.nodes, root)
    ensures ok ==> disk.nodes == CopyAll(old(disk.nodes), exports, first, ix, |ix|)
    ensures Fit(old(disk.nodes), exports) ==> (disk.reliable ==> ok) && (ok ==> Fit(disk.nodes, exports))
  {
    ok := true;
    for x := 1 to |ix|
      invariant Fit(old(disk.nodes), exports) ==> Fit(disk.nodes, exports)
      invariant ok
      invariant Valid(disk.nodes) && Confined(old(disk.nodes), disk.nodes, root)
      invariant disk.nodes == CopyAll(old(disk.nodes), exports, first, ix, x)
      invariant IsFile(disk.nodes, first)
    {
      var target := exports[ix[x]].target;
      if target != first {
        ghost var before := disk.nodes;
        assert Fit(before, exports) ==> Open(before, target);
        ok := CopyWithParents(disk, first, target, root);
        ConfinedTrans(old(disk.nodes), before, disk.nodes, root);
        WithDirsAt(before, target, first);
        if !ok {
          return;
        }
        if Fit(before, exports) {
          StillFit(before, exports, ix[x], before[first]);
        }
      }
    }
  }

  /** One entry: the first matching export receives the stream and the others copy its target. */
  method ExtractEntry(disk: Disk, exports: seq<Resolved>, e: Entry, ghost f: Feed, ghost root: Path)
    returns (r: Outcome, ix: seq<nat>)
    requires Valid(disk.nodes) && AllBelow(exports, root) && Fits(exports, f) && Planned(exports, e, f)
    modifies disk
    ensures Valid(disk.nodes) && Confined(old(disk.nodes), disk.nodes, root)
    ensures r.Installed? || r.BadName? || r.IoFailed?
    ensures r.BadName? ==> e.name.None?
    ensures r.Installed? ==> e.name.Some? && e.body.Some?
    ensures r.Installed? ==> ix == f.ix && disk.nodes == ExtractOne(old(disk.nodes), exports, f)
    ensures Fit(old(disk.nodes), exports) && e.body.Some? && disk.reliable ==> !r.IoFailed?
    ensures Fit(old(disk.nodes), exports) && r.Installed? ==> Fit(disk.nodes, exports)
  {
    ix := [];
    var fault: bool := *;
    if fault && !disk.reliable {
      return IoFailed, ix;
    }
    if e.name.None? {
      return BadName, ix;
    }
    ix := Matching(exports, e, 0);
    if ix == [] {
      return if e.body.Some? then Installed else IoFailed, ix;
    }
    var first := exports[ix[0]].target;
    assert Fit(disk.nodes, exports) ==> Open(disk.nodes, first);
    var part: seq<Byte> := *;
    var ok := Place(disk, first, if e.body.Some? then e.body.value else part, root);
    if e.body.None? {
      // The stream breaks off after some of the contents were written.
      return IoFailed, ix;
    }
    if ok {
      ghost var placed := disk.nodes;
      if Fit(old(disk.nodes), exports) {
        StillFit(old(disk.nodes), exports, ix[0], File(Contents(e), Bit(old(disk.nodes), first)));
      }
      ok := CopyRest(disk, exports, first, ix, root);
      ConfinedTrans(old(disk.nodes), placed, disk.nodes, root);
    }
    r := if ok then Installed else IoFailed;
  }

  /** The bookkeeping of one extracted entry: which exports it served and which files to mark. */
  method Record(exports: seq<Resolved>, ix: seq<nat>, matched: seq<bool>, extracted: seq<Mark>)
    returns (nowMatched: seq<bool>, nowExtracted: seq<Mark>)
    requires |matched| == |exports| && forall x :: 0 <= x < |ix| ==> ix[x] < |exports|
    ensures |nowMatched| == |matched|
    ensures forall j :: 0 <= j < |matched| ==> (nowMatched[j] <==> matched[j] || j in ix)
    ensures nowExtracted == extracted + MarksOf(exports, ix)
  {
    nowMatched, nowExtracted := matched, extracted;
    for x := 0 to |ix|
      invariant |nowMatched| == |matched|
      invariant forall j :: 0 <= j < |matched| ==> (nowMatched[j] <==> matched[j] || j in ix[..x])
      invariant nowExtracted == extracted + MarksOf(exports, ix)[..x]
    {
      nowMatched := nowMatched[ix[x] := true];
      nowExtracted := nowExtracted + [(exports[ix[x]].target, exports[ix[x]].executable)];
      assert ix[..x + 1] == ix[..x] + [ix[x]];
    }
    assert ix[..|ix|] == ix;
  }

  /** One of the first `n` entries is consumed by export `j`. */
  ghost predicate Served(plan: seq<Feed>, n: nat, j: nat)
    requires n <= |plan|
  {
    n > 0 && (j in plan[n - 1].ix || Served(plan, n - 1, j))
  }

  /** `matched` records exactly the exports served by the first `n` entries. */
  ghost predicate Tracks(plan: seq<Feed>, n: nat, matched: seq<bool>)
    requires n <= |plan|
  {
    forall j :: 0 <= j < |matched| ==> (matched[j] <==> Served(plan, n, j))
  }

  ghost predicate Planned(exports: seq<Resolved>, e: Entry, f: Feed) {
    f == FeedOf(exports, e)
  }

  ghost predicate PlanFor(exports: seq<Resolved>, entries: seq<Entry>, plan: seq<Feed>) {
    && |plan| == |entries| && AllFit(exports, plan)
    && forall i {:trigger Planned(exports, entries[i], plan[i])} ::
         0 <= i < |entries| ==> Planned(exports, entries[i], plan[i])
  }

  /** The state of the pass after `n` entries, the disk having been `m` at its start. */
  ghost predicate Streamed(m: Nodes, now: Nodes, exports: seq<Resolved>, plan: seq<Feed>, n: nat,
                           matched: seq<bool>, extracted: seq<Mark>)
    requires n <= |plan| && AllFit(exports, plan)
  {
    && now == ExtractAll(m, exports, plan, n)
    && extracted == Marks(exports, plan, n)
    && |matched| == |exports| && Tracks(plan, n, matched)
  }

  lemma StreamedNext(m: Nodes, now: Nodes, exports: seq<Resolved>, plan: seq<Feed>, n: nat,
                     matched: seq<bool>, extracted: seq<Mark>, nowMatched: seq<bool>, nowExtracted: seq<Mark>)
    requires AllFit(exports, plan) && n < |plan| && Streamed(m, now, exports, plan, n, matched, extracted)
    requires |nowMatched| == |exports|
    requires forall j :: 0 <= j < |exports| ==> (nowMatched[j] <==> matched[j] || j in plan[n].ix)
    requires nowExtracted == extracted + MarksOf(exports, plan[n].ix)
    ensures Streamed(m, ExtractOne(now, exports, plan[n]), exports, plan, n + 1, nowMatched, nowExtracted)
  {
  }

  lemma PlannedServes(exports: seq<Resolved>, e: Entry, f: Feed, j: nat)
    requires Planned(exports, e, f) && j < |exports|
    ensures j in f.ix <==> Hits(exports, e, j)
  {
  }

  lemma MatchedSnoc(exports: seq<Resolved>, entries: seq<Entry>, n: nat, j: nat)
    requires 0 < n <= |entries| && j < |exports|
    ensures Matched(exports, entries, n, j) <==> Matched(exports, entries, n - 1, j) || Hits(exports, entries[n - 1], j)
  {
  }

  /** Being served by the plan is being matched by some entry's name. */
  lemma {:induction false} ServedIsMatched(exports: seq<Resolved>, entries: seq<Entry>, plan: seq<Feed>, n: nat, j: nat)
    requires PlanFor(exports, entries, plan) && n <= |entries| && j < |exports|
    ensures Served(plan, n, j) <==> Matched(exports, entries, n, j)
  {
    if n > 0 {
      ServedIsMatched(exports, entries, plan, n - 1, j);
      assert Planned(exports, entries[n - 1], plan[n - 1]);
      PlannedServes(exports, entries[n - 1], plan[n - 1], j);
      MatchedSnoc(exports, entries, n, j);
    }
  }

  /** One step of the pass, `m` being the disk at its start. */
  method StreamEntry(disk: Disk, exports: seq<Resolved>, entries: seq<Entry>, n: nat, matched: seq<bool>,
                     extracted: seq<Mark>, ghost m: Nodes, ghost plan: seq<Feed>, ghost root: Path)
    returns (r: Outcome, nowMatched: seq<bool>, nowExtracted: seq<Mark>)
    requires Valid(disk.nodes) && AllBelow(exports, root)
    requires n < |entries| && PlanFor(exports, entries, plan)
    requires Streamed(m, disk.nodes, exports, plan, n, matched, extracted)
    modifies disk
    ensures Valid(disk.nodes) && Confined(old(disk.nodes), disk.nodes, root)
    ensures r.Installed? || r.BadName? || r.IoFailed?
    ensures r.BadName? ==> entries[n].name.None?
    ensures r.Installed? ==> entries[n].name.Some? && entries[n].body.Some?
    ensures r.Installed? ==> Streamed(m, disk.nodes, exports, plan, n + 1, nowMatched, nowExtracted)
    ensures Fit(old(disk.nodes), exports) && entries[n].body.Some? && disk.reliable ==> !r.IoFailed?
    ensures Fit(old(disk.nodes), exports) && r.Installed? ==> Fit(disk.nodes, exports)
  {
    nowMatched, nowExtracted := matched, extracted;
    ghost var before := disk.nodes;
    var ix;
    assert Planned(exports, entries[n], plan[n]);
    r, ix := ExtractEntry(disk, exports, entries[n], plan[n], root);
    if r.Installed? {
      nowMatched, nowExtracted := Record(exports, ix, matched, extracted);
      StreamedNext(m, before, exports, plan, n, matched, extracted, nowMatched, nowExtracted);
    }
  }

  /** The pass over the archive; it stops at a name that is not UTF-8 and at any failing call. */
  method StreamEntries(disk: Disk, exports: seq<Resolved>, entries: seq<Entry>, ghost plan: seq<Feed>, ghost root: Path)
    returns (r: Outcome, matched: seq<bool>, extracted: seq<Mark>)
    requires Valid(disk.nodes) && AllBelow(exports, root) && PlanFor(exports, entries, plan)
    modifies disk
    ensures Valid(disk.nodes) && Confined(old(disk.nodes), disk.nodes, root)
    ensures r.Installed? || r.BadName? || r.IoFailed?
    ensures r.BadName? ==> !AllNamed(entries)
    ensures r.Installed? ==> AllDecodable(entries)
    ensures r.Installed? ==> Streamed(old(disk.nodes), disk.nodes, exports, plan, |entries|, matched, extracted)
    ensures disk.reliable && Fit(old(disk.nodes), exports) && r.IoFailed? ==> !AllRead(entries)
  {
    ghost var m := disk.nodes;
    r, extracted, matched := Installed, [], seq(|exports|, _ => false);
    assert Streamed(m, disk.nodes, exports, plan, 0, matched, extracted);
    var i := 0;
    while i < |entries|
      invariant i <= |entries| && r.Installed?
      invariant Valid(disk.nodes) && Confined(m, disk.nodes, root)
      invariant Streamed(m, disk.nodes, exports, plan, i, matched, extracted)
      invariant Fit(m, exports) ==> Fit(disk.nodes, exports)
      invariant forall k :: 0 <= k < i ==> entries[k].name.Some? && entries[k].body.Some?
    {
      ghost var before := disk.nodes;
      r, matched, extracted := StreamEntry(disk, exports, entries, i, matched, extracted, m, plan, root);
      ConfinedTrans(m, before, disk.nodes, root);
      if !r.Installed? {
        return;
      }
      i := i + 1;
    }
  }

  method FirstFalse(matched: seq<bool>) returns (j: nat)
    ensures j <= |matched| && (forall k :: 0 <= k < j ==> matched[k]) && (j < |matched| ==> !matched[j])
  {
    j := 0;
    while j < |matched| && matched[j]
      invariant j <= |matched| && forall k :: 0 <= k < j ==> matched[k]
    {
      j := j + 1;
    }
  }

  method InstallTar(disk: Disk, exports: seq<Resolved>, entries: seq<Entry>, ghost root: Path) returns (r: Outcome)
    requires Valid(disk.nodes) && AllBelow(exports, root)
    modifies disk
    ensures Valid(disk.nodes) && Confined(old(disk.nodes), disk.nodes, root)
    ensures r.Installed? ==> AllDecodable(entries) && AllMatched(exports, entries)
    ensures r.Installed? ==> disk.nodes == TarTree(old(disk.nodes), exports, Plan(exports, entries))
    ensures r.BadName? ==> !AllNamed(entries)
    ensures r.NotContained? ==> AllDecodable(entries) && FirstLacking(exports, entries, r.index)
    ensures !r.BadTarget? && !r.BadExportCount?
    ensures disk.reliable && Fit(old(disk.nodes), exports) && r.IoFailed? ==> !AllRead(entries)
  {
    var matched, extracted;
    ghost var plan := Plan(exports, entries);
    r, matched, extracted := StreamEntries(disk, exports, entries, plan, root);
    if !r.Installed? {
      return;
    }
    forall j | 0 <= j < |exports|
      ensures matched[j] <==> Matched(exports, entries, |entries|, j)
    {
      ServedIsMatched(exports, entries, plan, |entries|, j);
    }
    var j := FirstFalse(matched);
    if j < |exports| {
      return NotContained(j);
    }
    MarksBelow(exports, plan, |entries|, root);
    MarksThere(old(disk.nodes), exports, plan, |entries|);
    ghost var before := disk.nodes;
    var marked := MarkFiles(disk, extracted, root);
    ConfinedTrans(old(disk.nodes), before, disk.nodes, root);
    r := if marked then Installed else IoFailed;
  }

  method MarkFiles(disk: Disk, marks: seq<Mark>, ghost root: Path) returns (ok: bool)
    requires Valid(disk.nodes) && forall x :: 0 <= x < |marks| ==> root < marks[x].0
    modifies disk
    ensures Valid(disk.nodes) && Confined(old(disk.nodes), disk.nodes, root)
    ensures ok ==> disk.nodes == MarkAll(old(disk.nodes), marks, |marks|)
    ensures disk.reliable && (forall x :: 0 <= x < |marks| ==> marks[x].0 in old(disk.nodes)) ==> ok
  {
    for x := 0 to |marks|
      invariant Valid(disk.nodes) && Confined(old(disk.nodes), disk.nodes, root)
      invariant disk.nodes.Keys == old(disk.nodes).Keys
      invariant disk.nodes == MarkAll(old(disk.nodes), marks, x)
    {
      ghost var before := disk.nodes;
      ok := MarkIfNeeded(disk, marks[x].0, marks[x].1, root);
      ConfinedTrans(old(disk.nodes), before, disk.nodes, root);
      if !ok {
        return;
      }
    }
    ok := true;
  }

  lemma {:induction false} MarksBelow(exports: seq<Resolved>, plan: seq<Feed>, n: nat, root: Path)
    requires n <= |plan| && AllFit(exports, plan) && AllBelow(exports, root)
    ensures forall x :: 0 <= x < |Marks(exports, plan, n)| ==> root < Marks(exports, plan, n)[x].0
  {
    if n > 0 {
      MarksBelow(exports, plan, n - 1, root);
    }
  }

  lemma {:induction false} CopiesThere(m: Nodes, exports: seq<Resolved>, source: Path, ix: seq<nat>, n: nat)
    requires n <= |ix| && (forall x :: 0 <= x < |ix| ==> ix[x] < |exports|) && IsFile(m, source)
    ensures var r := CopyAll(m, exports, source, ix, n);
      m.Keys <= r.Keys && IsFile(r, source) && forall x :: 0 <= x < n ==> exports[ix[x]].target in r
  {
    if n > 0 {
      CopiesThere(m, exports, source, ix, n - 1);
      var before := CopyAll(m, exports, source, ix, n - 1);
      var target := exports[ix[n - 1]].target;
      DirsKeepNodes(before, target);
      WithDirsAt(before, target, source);
    }
  }

  lemma EntryThere(m: Nodes, exports: seq<Resolved>, f: Feed)
    requires Fits(exports, f)
    ensures m.Keys <= ExtractOne(m, exports, f).Keys
    ensures forall x :: 0 <= x < |f.ix| ==> exports[f.ix[x]].target in ExtractOne(m, exports, f)
  {
    if f.ix != [] {
      var first := exports[f.ix[0]].target;
      DirsKeepNodes(m, first);
      CopiesThere(Placed(m, first, f.body), exports, first, f.ix, |f.ix|);
    }
  }

  /** Whatever is to be marked was extracted. */
  lemma {:induction false} MarksThere(m: Nodes, exports: seq<Resolved>, plan: seq<Feed>, n: nat)
    requires n <= |plan| && AllFit(exports, plan)
    ensures forall x :: 0 <= x < |Marks(exports, plan, n)| ==>
      Marks(exports, plan, n)[x].0 in ExtractAll(m, exports, plan, n)
  {
    if n > 0 {
      MarksThere(m, exports, plan, n - 1);
      EntryThere(ExtractAll(m, exports, plan, n - 1), exports, plan[n - 1]);
    }
  }

  // ----- zip: one lookup per export -----

  function Names(entries: seq<Entry>): (r: seq<Option<string>>) {
    seq(|entries|, i requires 0 <= i < |entries| => entries[i].name)
  }

  /** The entry looked up for `wanted`. */
  function ZipEntry(entries: seq<Entry>, wanted: string): (r: Option<Entry>) {
    ZipLookup(Names(entries), wanted);
    var found := ZipIndex(Names(entries), wanted);
    if found.None? then None else Some(entries[found.value])
  }

  function ZipBody(entries: seq<Entry>, wanted: string): (r: seq<Byte>) {
    var e := ZipEntry(entries, wanted);
    if e.None? then [] else Contents(e.value)
  }

  /** The entry looked up for `wanted` opens and decodes. */
  predicate ZipOpens(entries: seq<Entry>, wanted: string) {
    var e := ZipEntry(entries, wanted);
    e.Some? && e.value.body.Some?
  }

  /** The entries looked up for the first `n` exports open and decode. */
  predicate OpensUpTo(exports: seq<Resolved>, entries: seq<Entry>, n: nat)
    requires n <= |exports|
  {
    forall j :: 0 <= j < n ==> ZipOpens(entries, exports[j].archivePath)
  }

  predicate AllOpen(exports: seq<Resolved>, entries: seq<Entry>) {
    OpensUpTo(exports, entries, |exports|)
  }

  function ZipBodies(exports: seq<Resolved>, entries: seq<Entry>): (r: seq<seq<Byte>>) {
    seq(|exports|, j requires 0 <= j < |exports| => ZipBody(entries, exports[j].archivePath))
  }

  ghost function ZipOne(m: Nodes, x: Resolved, body: seq<Byte>): (r: Nodes) {
    MarkOne(Placed(m, x.target, body), x.target, x.executable)
  }

  /** The first `n` exports written in declaration order, each with its own body. */
  ghost function ZipTree(m: Nodes, exports: seq<Resolved>, bodies: seq<seq<Byte>>, n: nat): (r: Nodes)
    requires n <= |exports| == |bodies|
  {
    if n == 0 then m else ZipOne(ZipTree(m, exports, bodies, n - 1), exports[n - 1], bodies[n - 1])
  }

  /** The export numbered `j` of a zip archive. */
  method InstallZipExport(disk: Disk, exports: seq<Resolved>, j: nat, entries: seq<Entry>, ghost root: Path)
    returns (r: Outcome)
    requires Valid(disk.nodes) && j < |exports| && AllBelow(exports, root)
    modifies disk
    ensures Valid(disk.nodes) && Confined(old(disk.nodes), disk.nodes, root)
    ensures r == Installed || r == NotContained(j) || r == IoFailed
    ensures r.NotContained? ==> !Matched(exports, entries, |entries|, j)
    ensures r.Installed? ==> Matched(exports, entries, |entries|, j) && ZipOpens(entries, exports[j].archivePath)
    ensures r.Installed? ==> disk.nodes == ZipOne(old(disk.nodes), exports[j], ZipBody(entries, exports[j].archivePath))
    ensures disk.reliable && Fit(old(disk.nodes), exports) && ZipOpens(entries, exports[j].archivePath) ==> r.Installed?
    ensures Fit(old(disk.nodes), exports) && r.Installed? ==> Fit(disk.nodes, exports)
  {
    var x := exports[j];
    FoundIffMatched(exports, entries, j);
    ZipLookup(Names(entries), x.archivePath);
    var found := ZipIndex(Names(entries), x.archivePath);
    if found.None? {
      return NotContained(j);
    }
    assert Fit(disk.nodes, exports) ==> Open(disk.nodes, x.target);
    var e := entries[found.value];
    var opens: bool := *;
    if e.body.None? && !opens {
      return IoFailed;
    }
    var part: seq<Byte> := *;
    var ok := Place(disk, x.target, if e.body.Some? then e.body.value else part, root);
    if e.body.None? {
      // The entry stops decoding after some of the contents were written.
      return IoFailed;
    }
    if ok {
      ghost var placed := disk.nodes;
      if Fit(old(disk.nodes), exports) {
        StillFit(old(disk.nodes), exports, j, File(Contents(e), Bit(old(disk.nodes), x.target)));
        MarkedFit(placed, exports, x.target, x.executable);
      }
      ok := MarkIfNeeded(disk, x.target, x.executable, root);
      ConfinedTrans(old(disk.nodes), placed, disk.nodes, root);
    }
    r := if ok then Installed else IoFailed;
  }

  /** Zip lookup and the tar.gz pass agree on which exports an archive contains. */
  lemma FoundIffMatched(exports: seq<Resolved>, entries: seq<Entry>, j: nat)
    requires j < |exports|
    ensures ZipIndex(Names(entries), exports[j].archivePath).Some? <==> Matched(exports, entries, |entries|, j)
  {
    var names := Names(entries);
    ZipLookup(names, exports[j].archivePath);
    assert forall i :: 0 <= i < |entries| ==>
      (Hits(exports, entries[i], j) <==> MatchesName(names[i], exports[j].archivePath));
  }

  /** One step of the loop over the exports, `m` being the disk at its start. */
  method InstallZipNext(disk: Disk, exports: seq<Resolved>, j: nat, entries: seq<Entry>, ghost m: Nodes,
                        ghost root: Path)
    returns (r: Outcome)
    requires Valid(disk.nodes) && j < |exports| && AllBelow(exports, root)
    requires ZipDone(m, disk.nodes, exports, entries, j)
    modifies disk
    ensures Valid(disk.nodes) && Confined(old(disk.nodes), disk.nodes, root)
    ensures r.Installed? || r.NotContained? || r.IoFailed?
    ensures r.Installed? ==> ZipDone(m, disk.nodes, exports, entries, j + 1)
    ensures r.NotContained? ==> FirstLacking(exports, entries, r.index)
    ensures disk.reliable && Fit(old(disk.nodes), exports) && r.IoFailed? ==> !AllOpen(exports, entries)
    ensures Fit(old(disk.nodes), exports) && r.Installed? ==> Fit(disk.nodes, exports)
  {
    r := InstallZipExport(disk, exports, j, entries, root);
    if r.Installed? {
      ZipDoneNext(m, old(disk.nodes), exports, entries, j);
    }
  }

  method InstallZip(disk: Disk, exports: seq<Resolved>, entries: seq<Entry>, ghost root: Path) returns (r: Outcome)
    requires Valid(disk.nodes) && AllBelow(exports, root)
    modifies disk
    ensures Valid(disk.nodes) && Confined(old(disk.nodes), disk.nodes, root)
    ensures r.Installed? || r.NotContained? || r.IoFailed?
    ensures r.Installed? ==> ZipDone(old(disk.nodes), disk.nodes, exports, entries, |exports|)
    ensures r.NotContained? ==> FirstLacking(exports, entries, r.index)
    ensures disk.reliable && Fit(old(disk.nodes), exports) && r.IoFailed? ==> !AllOpen(exports, entries)
  {
    r := Installed;
    for i := 0 to |exports|
      invariant r.Installed?
      invariant Fit(old(disk.nodes), exports) ==> Fit(disk.nodes, exports)
      invariant Valid(disk.nodes) && Confined(old(disk.nodes), disk.nodes, root)
      invariant ZipDone(old(disk.nodes), disk.nodes, exports, entries, i)
    {
      ghost var before := disk.nodes;
      r := InstallZipNext(disk, exports, i, entries, old(disk.nodes), root);
      ConfinedTrans(old(disk.nodes), before, disk.nodes, root);
      if !r.Installed? {
        return;
      }
    }
  }

  /** The first `n` exports were found in the archive and installed. */
  ghost predicate ZipDone(m: Nodes, now: Nodes, exports: seq<Resolved>, entries: seq<Entry>, n: nat) {
    && n <= |exports| && MatchedUpTo(exports, entries, n) && OpensUpTo(exports, entries, n)
    && now == ZipTree(m, exports, ZipBodies(exports, entries), n)
  }

  lemma ZipDoneNext(m: Nodes, now: Nodes, exports: seq<Resolved>, entries: seq<Entry>, n: nat)
    requires n < |exports| && ZipDone(m, now, exports, entries, n)
    requires Matched(exports, entries, |entries|, n) && ZipOpens(entries, exports[n].archivePath)
    ensures ZipDone(m, ZipOne(now, exports[n], ZipBody(entries, exports[n].archivePath)), exports, entries, n + 1)
  {
  }

  // ----- raw: the payload is the file -----

  /** The payload copied with its mode; a payload that is its own target is truncated first. */
  ghost function RawTree(m: Nodes, archive: Path, x: Resolved): (r: Nodes)
    requires IsFile(m, archive)
  {
    var body := if archive == x.target then [] else m[archive].body;
    MarkOne(WithDirs(m, x.target)[x.target := File(body, m[archive].exec)], x.target, x.executable)
  }

  method InstallRaw(disk: Disk, archive: Path, exports: seq<Resolved>, ghost root: Path) returns (r: Outcome)
    requires Valid(disk.nodes) && AllBelow(exports, root)
    modifies disk
    ensures Valid(disk.nodes) && Confined(old(disk.nodes), disk.nodes, root)
    ensures r.Installed? || r.BadExportCount? || r.IoFailed?
    ensures r.BadExportCount? <==> |exports| != 1
    ensures r.BadExportCount? ==> disk.nodes == old(disk.nodes)
    ensures r.Installed? ==> IsFile(old(disk.nodes), archive) && IsFile(disk.nodes, exports[0].target)
    ensures r.Installed? ==> disk.nodes == RawTree(old(disk.nodes), archive, exports[0])
    ensures r.Installed? && exports[0].executable ==> Bit(disk.nodes, exports[0].target)
    ensures disk.reliable && Fit(old(disk.nodes), exports) && IsFile(old(disk.nodes), archive) ==> !r.IoFailed?
  {
    if |exports| != 1 {
      return BadExportCount;
    }
    var x := exports[0];
    assert Fit(disk.nodes, exports) ==> Open(disk.nodes, x.target);
    var ok := CopyWithParents(disk, archive, x.target, root);
    if ok {
      ghost var copied := disk.nodes;
      ok := MarkIfNeeded(disk, x.target, x.executable, root);
      ConfinedTrans(old(disk.nodes), copied, disk.nodes, root);
    }
    r := if ok then Installed else IoFailed;
  }
}
