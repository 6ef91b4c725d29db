/**
 * What an install leaves at every path: the meaning of the tar.gz pass and of the zip lookups,
 * and exactly when the two leave the same tree.
 */
module ArchiveTrees {
  import opened Common
  import opened FileSystem
  import opened ArchiveNames
  import opened ArchiveInstall

  function At(m: Nodes, q: Path): Option<Node> {
    if q in m then Some(m[q]) else None
  }

  ghost predicate IsTarget(exports: seq<Resolved>, q: Path) {
    exists j :: 0 <= j < |exports| && exports[j].target == q
  }

  ghost predicate AboveTarget(exports: seq<Resolved>, q: Path) {
    exists j :: 0 <= j < |exports| && q < exports[j].target
  }

  /** Some export with this target asks for the execute bit. */
  ghost predicate WantsExec(exports: seq<Resolved>, q: Path) {
    exists j :: 0 <= j < |exports| && exports[j].target == q && exports[j].executable
  }

  // ----- one tar.gz entry -----

  /** The target of the export numbered `f.ix[x]`. */
  ghost function TargetAt(exports: seq<Resolved>, f: Feed, x: int): Path
    requires Fits(exports, f) && 0 <= x < |f.ix|
  {
    exports[f.ix[x]].target
  }

  /** Some export that consumes the entry is to be installed at `q`. */
  ghost predicate Feeds(exports: seq<Resolved>, f: Feed, q: Path)
    requires Fits(exports, f)
  {
    exists x :: 0 <= x < |f.ix| && TargetAt(exports, f, x) == q
  }

  ghost predicate FeedsBelow(exports: seq<Resolved>, f: Feed, q: Path)
    requires Fits(exports, f)
  {
    exists x :: 0 <= x < |f.ix| && q < TargetAt(exports, f, x)
  }

  ghost predicate FeedsExec(exports: seq<Resolved>, f: Feed, q: Path)
    requires Fits(exports, f)
  {
    exists x :: 0 <= x < |f.ix| && TargetAt(exports, f, x) == q && exports[f.ix[x]].executable
  }

  /** The target that receives the entry as a stream: the first matching export's. */
  ghost function Leader(exports: seq<Resolved>, f: Feed): (p: Path)
    requires Fits(exports, f)
    ensures f.ix != [] <==> Feeds(exports, f, p)
  {
    if f.ix == [] then [] else TargetAt(exports, f, 0)
  }

  ghost predicate HitBy(exports: seq<Resolved>, f: Feed, n: nat, q: Path)
    requires Fits(exports, f) && n <= |f.ix|
  {
    n > 0 && (TargetAt(exports, f, n - 1) == q || HitBy(exports, f, n - 1, q))
  }

  ghost predicate PassedBy(exports: seq<Resolved>, f: Feed, n: nat, q: Path)
    requires Fits(exports, f) && n <= |f.ix|
  {
    n > 0 && (q < TargetAt(exports, f, n - 1) || PassedBy(exports, f, n - 1, q))
  }

  /** What the first `n` copies leave at `q`. */
  lemma {:induction false} CopyAllAt(m: Nodes, exports: seq<Resolved>, source: Path, f: Feed, n: nat, q: Path)
    requires Fits(exports, f) && n <= |f.ix|
    requires IsFile(m, source) && (q < source ==> q in m)
    ensures var r := CopyAll(m, exports, source, f.ix, n);
      && At(r, source) == Some(m[source])
      && At(r, q) ==
        if q == source || HitBy(exports, f, n, q) then Some(m[source])
        else if q in m then Some(m[q])
        else if PassedBy(exports, f, n, q) then Some(Dir)
        else None
  {
    if n > 0 {
      CopyAllAt(m, exports, source, f, n - 1, q);
      var before := CopyAll(m, exports, source, f.ix, n - 1);
      WithDirsAt(before, TargetAt(exports, f, n - 1), q);
      WithDirsAt(before, TargetAt(exports, f, n - 1), source);
    }
  }

  lemma {:induction false} HitByAny(exports: seq<Resolved>, f: Feed, n: nat, q: Path)
    requires Fits(exports, f) && n <= |f.ix|
    ensures HitBy(exports, f, n, q) <==> exists x :: 0 <= x < n && TargetAt(exports, f, x) == q
    ensures PassedBy(exports, f, n, q) <==> exists x :: 0 <= x < n && q < TargetAt(exports, f, x)
  {
    if n > 0 {
      HitByAny(exports, f, n - 1, q);
    }
  }

  /** One entry: its targets hold its body, missing directories above them appear, the rest stays. */
  lemma ExtractOneAt(m: Nodes, exports: seq<Resolved>, f: Feed, q: Path)
    requires Fits(exports, f)
    ensures At(ExtractOne(m, exports, f), q) ==
      if Feeds(exports, f, q) then Some(File(f.body, Bit(m, Leader(exports, f))))
      else if q in m then Some(m[q])
      else if FeedsBelow(exports, f, q) then Some(Dir)
      else None
  {
    if f.ix != [] {
      var first := TargetAt(exports, f, 0);
      HitByAny(exports, f, |f.ix|, q);
      WithDirsAt(m, first, q);
      CopyAllAt(Placed(m, first, f.body), exports, first, f, |f.ix|, q);
      if q < first {
        assert FeedsBelow(exports, f, q);
      }
    }
  }

  // ----- the whole tar.gz pass -----

  /** The last of the first `n` entries that feeds `q`. */
  ghost function LastFeed(exports: seq<Resolved>, plan: seq<Feed>, n: nat, q: Path): (r: Option<nat>)
    requires n <= |plan| && AllFit(exports, plan)
    ensures r.Some? ==> r.value < n && Feeds(exports, plan[r.value], q)
    ensures forall k :: (if r.Some? then r.value else -1) < k < n ==> !Feeds(exports, plan[k], q)
  {
    if n == 0 then None
    else if Feeds(exports, plan[n - 1], q) then Some(n - 1)
    else LastFeed(exports, plan, n - 1, q)
  }

  /**
   * The path whose original execute bit the file at `q` carries after `n` entries: a streamed
   * target keeps its own, a copied one takes over that of the target it was copied from.
   */
  ghost function Origin(exports: seq<Resolved>, plan: seq<Feed>, n: nat, q: Path): (p: Path)
    requires n <= |plan| && AllFit(exports, plan)
    ensures LastFeed(exports, plan, n, q).None? ==> p == q
  {
    if n == 0 then q
    else if Feeds(exports, plan[n - 1], q) then Origin(exports, plan, n - 1, Leader(exports, plan[n - 1]))
    else Origin(exports, plan, n - 1, q)
  }

  ghost predicate PassedIn(exports: seq<Resolved>, plan: seq<Feed>, n: nat, q: Path)
    requires n <= |plan| && AllFit(exports, plan)
  {
    n > 0 && (FeedsBelow(exports, plan[n - 1], q) || PassedIn(exports, plan, n - 1, q))
  }

  ghost predicate ExecIn(exports: seq<Resolved>, plan: seq<Feed>, n: nat, q: Path)
    requires n <= |plan| && AllFit(exports, plan)
  {
    n > 0 && (FeedsExec(exports, plan[n - 1], q) || ExecIn(exports, plan, n - 1, q))
  }

  predicate ExecNode(x: Option<Node>) {
    x.Some? && x.value.File? && x.value.exec
  }

  lemma BitAt(m: Nodes, q: Path)
    ensures Bit(m, q) <==> ExecNode(At(m, q))
  {
  }

  /** What the first `n` entries leave at `q`, followed back entry by entry. */
  ghost function TarNode(m: Nodes, exports: seq<Resolved>, plan: seq<Feed>, n: nat, q: Path): (r: Option<Node>)
    requires n <= |plan| && AllFit(exports, plan)
    decreases n
  {
    if n == 0 then At(m, q)
    else
      var f := plan[n - 1];
      if Feeds(exports, f, q) then Some(File(f.body, ExecNode(TarNode(m, exports, plan, n - 1, Leader(exports, f)))))
      else
        var before := TarNode(m, exports, plan, n - 1, q);
        if before.None? && FeedsBelow(exports, f, q) then Some(Dir) else before
  }

  lemma {:induction false} ExtractNode(m: Nodes, exports: seq<Resolved>, plan: seq<Feed>, n: nat, q: Path)
    requires n <= |plan| && AllFit(exports, plan)
    ensures At(ExtractAll(m, exports, plan, n), q) == TarNode(m, exports, plan, n, q)
    decreases n
  {
    if n > 0 {
      var before := ExtractAll(m, exports, plan, n - 1);
      var f := plan[n - 1];
      ExtractOneAt(before, exports, f, q);
      ExtractNode(m, exports, plan, n - 1, q);
      ExtractNode(m, exports, plan, n - 1, Leader(exports, f));
      BitAt(before, Leader(exports, f));
    }
  }

  lemma {:induction false} TarNodeMeaning(m: Nodes, exports: seq<Resolved>, plan: seq<Feed>, n: nat, q: Path)
    requires n <= |plan| && AllFit(exports, plan)
    ensures ExecNode(TarNode(m, exports, plan, n, q)) == Bit(m, Origin(exports, plan, n, q))
    ensures var last := LastFeed(exports, plan, n, q);
      TarNode(m, exports, plan, n, q) ==
        if last.Some? then Some(File(plan[last.value].body, Bit(m, Origin(exports, plan, n, q))))
        else if q in m then Some(m[q])
        else if PassedIn(exports, plan, n, q) then Some(Dir)
        else None
    decreases n
  {
    BitAt(m, q);
    if n > 0 {
      var f := plan[n - 1];
      TarNodeMeaning(m, exports, plan, n - 1, if Feeds(exports, f, q) then Leader(exports, f) else q);
    }
  }

  ghost predicate MarkedBy(marks: seq<Mark>, n: nat, q: Path)
    requires n <= |marks|
  {
    n > 0 && (marks[n - 1] == (q, true) || MarkedBy(marks, n - 1, q))
  }

  lemma {:induction false} MarkAllAt(m: Nodes, marks: seq<Mark>, n: nat, q: Path)
    requires n <= |marks|
    ensures At(MarkAll(m, marks, n), q) ==
      if IsFile(m, q) && MarkedBy(marks, n, q) then Some(m[q].(exec := true)) else At(m, q)
  {
    if n > 0 {
      MarkAllAt(m, marks, n - 1, q);
    }
  }

  lemma {:induction false} MarkedByMember(marks: seq<Mark>, n: nat, q: Path)
    requires n <= |marks|
    ensures MarkedBy(marks, n, q) <==> (q, true) in marks[..n]
  {
    if n > 0 {
      MarkedByMember(marks, n - 1, q);
      assert marks[..n] == marks[..n - 1] + [marks[n - 1]];
    }
  }

  lemma EntryMarks(exports: seq<Resolved>, f: Feed, q: Path)
    requires Fits(exports, f)
    ensures (q, true) in MarksOf(exports, f.ix) <==> FeedsExec(exports, f, q)
  {
    var marks := MarksOf(exports, f.ix);
    assert |marks| == |f.ix|;
    assert forall x :: 0 <= x < |f.ix| ==> marks[x] == (TargetAt(exports, f, x), exports[f.ix[x]].executable);
  }

  lemma {:induction false} MarksMember(exports: seq<Resolved>, plan: seq<Feed>, n: nat, q: Path)
    requires n <= |plan| && AllFit(exports, plan)
    ensures (q, true) in Marks(exports, plan, n) <==> ExecIn(exports, plan, n, q)
  {
    if n > 0 {
      MarksMember(exports, plan, n - 1, q);
      EntryMarks(exports, plan[n - 1], q);
      var a, b := Marks(exports, plan, n - 1), MarksOf(exports, plan[n - 1].ix);
      assert (q, true) in a + b <==> (q, true) in a || (q, true) in b;
    }
  }

  lemma {:induction false} AnyPassing(exports: seq<Resolved>, plan: seq<Feed>, n: nat, q: Path)
    requires n <= |plan| && AllFit(exports, plan)
    ensures PassedIn(exports, plan, n, q) <==> exists i :: 0 <= i < n && FeedsBelow(exports, plan[i], q)
  {
    if n > 0 {
      AnyPassing(exports, plan, n - 1, q);
    }
  }

  lemma {:induction false} AnyMarking(exports: seq<Resolved>, plan: seq<Feed>, n: nat, q: Path)
    requires n <= |plan| && AllFit(exports, plan)
    ensures ExecIn(exports, plan, n, q) <==> exists i :: 0 <= i < n && FeedsExec(exports, plan[i], q)
  {
    if n > 0 {
      AnyMarking(exports, plan, n - 1, q);
    }
  }

  /** The tree after the pass and the marking, for any plan. */
  lemma TarTreeAt(m: Nodes, exports: seq<Resolved>, plan: seq<Feed>, q: Path)
    requires AllFit(exports, plan)
    ensures var last := LastFeed(exports, plan, |plan|, q);
      At(TarTree(m, exports, plan), q) ==
        if last.Some? then
          Some(File(plan[last.value].body, ExecIn(exports, plan, |plan|, q) ||
            Bit(m, Origin(exports, plan, |plan|, q))))
        else if q in m then Some(m[q])
        else if PassedIn(exports, plan, |plan|, q) then Some(Dir)
        else None
  {
    var n := |plan|;
    var marks := Marks(exports, plan, n);
    ExtractNode(m, exports, plan, n, q);
    TarNodeMeaning(m, exports, plan, n, q);
    MarkAllAt(ExtractAll(m, exports, plan, n), marks, |marks|, q);
    MarkedByMember(marks, |marks|, q);
    assert marks[..|marks|] == marks;
    MarksMember(exports, plan, n, q);
    ExecOnlyFed(exports, plan, n, q);
  }

  lemma {:induction false} ExecOnlyFed(exports: seq<Resolved>, plan: seq<Feed>, n: nat, q: Path)
    requires n <= |plan| && AllFit(exports, plan)
    ensures ExecIn(exports, plan, n, q) ==> LastFeed(exports, plan, n, q).Some?
  {
    if n > 0 {
      ExecOnlyFed(exports, plan, n - 1, q);
    }
  }

  // ----- the pass in terms of names and exports -----

  lemma Server(exports: seq<Resolved>, entries: seq<Entry>, j: nat) returns (i: nat)
    requires AllMatched(exports, entries) && j < |exports|
    ensures i < |entries| && Hits(exports, entries[i], j)
  {
    assert Matched(exports, entries, |entries|, j);
    i :| 0 <= i < |entries| && Hits(exports, entries[i], j);
  }

  /** An export that matches an entry is among the entry's consumers. */
  lemma HitIsFed(exports: seq<Resolved>, e: Entry, j: nat)
    requires j < |exports| && Hits(exports, e, j)
    ensures var f := FeedOf(exports, e);
      && Feeds(exports, f, exports[j].target)
      && (exports[j].executable ==> FeedsExec(exports, f, exports[j].target))
      && (forall q :: q < exports[j].target ==> FeedsBelow(exports, f, q))
  {
    var f := FeedOf(exports, e);
    assert j in f.ix;
    var x :| 0 <= x < |f.ix| && f.ix[x] == j;
    assert TargetAt(exports, f, x) == exports[j].target;
  }

  /** Some export that the entry's name matches is to be installed at `q`. */
  ghost predicate Suits(exports: seq<Resolved>, e: Entry, q: Path) {
    exists j {:trigger Hits(exports, e, j)} :: 0 <= j < |exports| && Hits(exports, e, j) && exports[j].target == q
  }

  lemma SuitsIffFeeds(exports: seq<Resolved>, e: Entry, q: Path)
    ensures Suits(exports, e, q) <==> Feeds(exports, FeedOf(exports, e), q)
  {
    var f := FeedOf(exports, e);
    if Suits(exports, e, q) {
      var j :| 0 <= j < |exports| && Hits(exports, e, j) && exports[j].target == q;
      HitIsFed(exports, e, j);
    }
    if Feeds(exports, f, q) {
      var x :| 0 <= x < |f.ix| && TargetAt(exports, f, x) == q;
      assert Hits(exports, e, f.ix[x]);
    }
  }

  /** When every export was served, what some entry feeds is what some export declares. */
  lemma ServedTargets(exports: seq<Resolved>, entries: seq<Entry>, q: Path)
    requires AllMatched(exports, entries)
    ensures var plan := Plan(exports, entries);
      && (LastFeed(exports, plan, |plan|, q).Some? <==> IsTarget(exports, q))
      && (PassedIn(exports, plan, |plan|, q) <==> AboveTarget(exports, q))
      && (ExecIn(exports, plan, |plan|, q) <==> WantsExec(exports, q))
  {
    var plan := Plan(exports, entries);
    AnyPassing(exports, plan, |plan|, q);
    AnyMarking(exports, plan, |plan|, q);
    if j :| 0 <= j < |exports| && exports[j].target == q {
      var i := Server(exports, entries, j);
      HitIsFed(exports, entries[i], j);
      assert Feeds(exports, plan[i], q);
    }
    if j :| 0 <= j < |exports| && q < exports[j].target {
      var i := Server(exports, entries, j);
      HitIsFed(exports, entries[i], j);
      assert FeedsBelow(exports, plan[i], q);
    }
    if j :| 0 <= j < |exports| && exports[j].target == q && exports[j].executable {
      var i := Server(exports, entries, j);
      HitIsFed(exports, entries[i], j);
      assert FeedsExec(exports, plan[i], q);
    }
  }

  /**
   * The tree after a successful tar.gz install, path by path. A target holds the body of the
   * last entry matching any export with that target, however targets coincide. It is executable
   * when such an export asks for it or when the path its bit descends from already was. Missing
   * directories above targets are created, and everything else is as before.
   */
  lemma TarMeaning(m: Nodes, exports: seq<Resolved>, entries: seq<Entry>, q: Path)
    requires AllMatched(exports, entries)
    ensures var plan := Plan(exports, entries);
      var tree := TarTree(m, exports, plan);
      if IsTarget(exports, q) then
        exists i :: 0 <= i < |entries| && Suits(exports, entries[i], q)
          && (forall k :: i < k < |entries| ==> !Suits(exports, entries[k], q))
          && At(tree, q) == Some(File(Contents(entries[i]), WantsExec(exports, q) ||
            Bit(m, Origin(exports, plan, |plan|, q))))
      else At(tree, q) == if q in m then Some(m[q]) else if AboveTarget(exports, q) then Some(Dir) else None
  {
    var plan := Plan(exports, entries);
    ServedTargets(exports, entries, q);
    TarTreeAt(m, exports, plan, q);
    if IsTarget(exports, q) {
      var i := LastFeed(exports, plan, |plan|, q).value;
      SuitsIffFeeds(exports, entries[i], q);
      forall k | i < k < |entries|
        ensures !Suits(exports, entries[k], q)
      {
        SuitsIffFeeds(exports, entries[k], q);
        assert !Feeds(exports, plan[k], q);
      }
    }
  }

  // ----- the zip lookups -----

  ghost function LastExport(exports: seq<Resolved>, n: nat, q: Path): (r: Option<nat>)
    requires n <= |exports|
    ensures r.Some? ==> r.value < n && exports[r.value].target == q
    ensures forall j :: (if r.Some? then r.value else -1) < j < n ==> exports[j].target != q
  {
    if n == 0 then None
    else if exports[n - 1].target == q then Some(n - 1)
    else LastExport(exports, n - 1, q)
  }

  ghost predicate AboveFirst(exports: seq<Resolved>, n: nat, q: Path)
    requires n <= |exports|
  {
    n > 0 && (q < exports[n - 1].target || AboveFirst(exports, n - 1, q))
  }

  ghost predicate ExecFirst(exports: seq<Resolved>, n: nat, q: Path)
    requires n <= |exports|
  {
    n > 0 && ((exports[n - 1].target == q && exports[n - 1].executable) || ExecFirst(exports, n - 1, q))
  }

  lemma {:induction false} FirstAny(exports: seq<Resolved>, n: nat, q: Path)
    requires n <= |exports|
    ensures AboveFirst(exports, n, q) <==> exists j :: 0 <= j < n && q < exports[j].target
    ensures ExecFirst(exports, n, q) <==> exists j :: 0 <= j < n && exports[j].target == q && exports[j].executable
  {
    if n > 0 {
      FirstAny(exports, n - 1, q);
    }
  }

  lemma {:induction false} NoTargetNoExec(exports: seq<Resolved>, n: nat, q: Path)
    requires n <= |exports|
    ensures LastExport(exports, n, q).None? ==> !ExecFirst(exports, n, q)
  {
    if n > 0 {
      NoTargetNoExec(exports, n - 1, q);
    }
  }

  lemma ZipOneAt(m: Nodes, x: Resolved, body: seq<Byte>, q: Path)
    ensures At(ZipOne(m, x, body), q) ==
      if q == x.target then Some(File(body, x.executable || ExecNode(At(m, q))))
      else if At(m, q).None? && q < x.target then Some(Dir)
      else At(m, q)
  {
    BitAt(m, q);
    WithDirsAt(m, x.target, q);
  }

  /** What the first `n` exports leave at `q`, followed back export by export. */
  ghost function ZipNode(m: Nodes, exports: seq<Resolved>, bodies: seq<seq<Byte>>, n: nat, q: Path): (r: Option<Node>)
    requires n <= |exports| == |bodies|
  {
    if n == 0 then At(m, q)
    else
      var before, x := ZipNode(m, exports, bodies, n - 1, q), exports[n - 1];
      if q == x.target then Some(File(bodies[n - 1], x.executable || ExecNode(before)))
      else if before.None? && q < x.target then Some(Dir)
      else before
  }

  lemma {:induction false} ZipTreeNode(m: Nodes, exports: seq<Resolved>, bodies: seq<seq<Byte>>, n: nat, q: Path)
    requires n <= |exports| == |bodies|
    ensures At(ZipTree(m, exports, bodies, n), q) == ZipNode(m, exports, bodies, n, q)
  {
    if n > 0 {
      ZipTreeNode(m, exports, bodies, n - 1, q);
      ZipOneAt(ZipTree(m, exports, bodies, n - 1), exports[n - 1], bodies[n - 1], q);
    }
  }

  lemma {:induction false} ZipNodeMeaning(m: Nodes, exports: seq<Resolved>, bodies: seq<seq<Byte>>, n: nat, q: Path)
    requires n <= |exports| == |bodies|
    ensures var last := LastExport(exports, n, q);
      ZipNode(m, exports, bodies, n, q) ==
        if last.Some? then Some(File(bodies[last.value], ExecFirst(exports, n, q) || Bit(m, q)))
        else if q in m then Some(m[q])
        else if AboveFirst(exports, n, q) then Some(Dir)
        else None
  {
    BitAt(m, q);
    if n > 0 {
      ZipNodeMeaning(m, exports, bodies, n - 1, q);
      NoTargetNoExec(exports, n - 1, q);
    }
  }

  /** The tree after a successful zip install, path by path: the last export decides coinciding targets. */
  lemma ZipMeaning(m: Nodes, exports: seq<Resolved>, entries: seq<Entry>, q: Path)
    ensures IsTarget(exports, q) <==> LastExport(exports, |exports|, q).Some?
    ensures At(ZipTree(m, exports, ZipBodies(exports, entries), |exports|), q) ==
      if IsTarget(exports, q) then
        var last := LastExport(exports, |exports|, q).value;
        Some(File(ZipBody(entries, exports[last].archivePath), WantsExec(exports, q) || Bit(m, q)))
      else if q in m then Some(m[q])
      else if AboveTarget(exports, q) then Some(Dir)
      else None
  {
    ZipTreeNode(m, exports, ZipBodies(exports, entries), |exports|, q);
    ZipNodeMeaning(m, exports, ZipBodies(exports, entries), |exports|, q);
    FirstAny(exports, |exports|, q);
  }

  // ----- both leave every export ready -----

  /** What a successful tar.gz install makes of `m`. */
  ghost function TarResult(m: Nodes, exports: seq<Resolved>, entries: seq<Entry>): (r: Nodes) {
    TarTree(m, exports, Plan(exports, entries))
  }

  /** What a successful zip install makes of `m`. */
  ghost function ZipResult(m: Nodes, exports: seq<Resolved>, entries: seq<Entry>): (r: Nodes) {
    ZipTree(m, exports, ZipBodies(exports, entries), |exports|)
  }

  ghost predicate AllReady(m: Nodes, exports: seq<Resolved>) {
    forall j :: 0 <= j < |exports| ==> IsFile(m, exports[j].target) && (exports[j].executable ==>
      Bit(m, exports[j].target))
  }

  lemma TarReady(m: Nodes, exports: seq<Resolved>, entries: seq<Entry>)
    requires AllMatched(exports, entries)
    ensures AllReady(TarResult(m, exports, entries), exports)
  {
    forall j | 0 <= j < |exports|
      ensures var r := TarResult(m, exports, entries);
        IsFile(r, exports[j].target) && (exports[j].executable ==> Bit(r, exports[j].target))
    {
      TarMeaning(m, exports, entries, exports[j].target);
      assert IsTarget(exports, exports[j].target);
      BitAt(TarResult(m, exports, entries), exports[j].target);
    }
  }

  lemma ZipReady(m: Nodes, exports: seq<Resolved>, entries: seq<Entry>)
    ensures AllReady(ZipResult(m, exports, entries), exports)
  {
    forall j | 0 <= j < |exports|
      ensures var r := ZipResult(m, exports, entries);
        IsFile(r, exports[j].target) && (exports[j].executable ==> Bit(r, exports[j].target))
    {
      ZipMeaning(m, exports, entries, exports[j].target);
      assert IsTarget(exports, exports[j].target);
      BitAt(ZipResult(m, exports, entries), exports[j].target);
    }
  }

  // ----- when tar.gz and zip agree -----

  ghost predicate DistinctTargets(exports: seq<Resolved>) {
    forall j, k :: 0 <= j < |exports| && 0 <= k < |exports| && exports[j].target == exports[k].target ==> j == k
  }

  /** No export matches two entries. */
  ghost predicate MatchedOnce(exports: seq<Resolved>, entries: seq<Entry>) {
    forall j, i, k {:trigger Hits(exports, entries[i], j), Hits(exports, entries[k], j)} ::
      0 <= j < |exports| && 0 <= i < |entries| && 0 <= k < |entries| ==>
      Hits(exports, entries[i], j) && Hits(exports, entries[k], j) ==> i == k
  }

  /** The target of the first export that the entry's name matches. */
  ghost function StreamTarget(exports: seq<Resolved>, e: Entry): Path {
    Leader(exports, FeedOf(exports, e))
  }

  /**
   * A target that shares its entry with an earlier export had, before the install, the execute
   * bit that the earlier export's target had, unless it is to be marked executable anyway.
   */
  ghost predicate BitsShared(m: Nodes, exports: seq<Resolved>, entries: seq<Entry>) {
    forall i, j {:trigger Hits(exports, entries[i], j)} ::
      0 <= i < |entries| && 0 <= j < |exports| && Hits(exports, entries[i], j) ==>
      exports[j].executable || Bit(m, exports[j].target) == Bit(m, StreamTarget(exports, entries[i]))
  }

  lemma FedOnce(exports: seq<Resolved>, entries: seq<Entry>, i: nat, j: nat, k: nat)
    requires DistinctTargets(exports) && MatchedOnce(exports, entries)
    requires i < |entries| && k < |entries| && j < |exports| && Hits(exports, entries[i], j)
    ensures Suits(exports, entries[k], exports[j].target) <==> k == i
    ensures Feeds(exports, FeedOf(exports, entries[k]), exports[j].target) <==> k == i
  {
    SuitsIffFeeds(exports, entries[k], exports[j].target);
    if Suits(exports, entries[k], exports[j].target) {
      var x :| 0 <= x < |exports| && Hits(exports, entries[k], x) && exports[x].target == exports[j].target;
    }
  }

  /** A target fed by the single entry `i` takes its bit from that entry's streamed target. */
  lemma {:induction false} OriginOnce(exports: seq<Resolved>, entries: seq<Entry>, i: nat, j: nat, n: nat)
    requires DistinctTargets(exports) && MatchedOnce(exports, entries)
    requires i < |entries| && j < |exports| && Hits(exports, entries[i], j) && n <= |entries|
    ensures i < n ==> Origin(exports, Plan(exports, entries), n, exports[j].target) == StreamTarget(exports, entries[i])
    ensures n <= i ==> Origin(exports, Plan(exports, entries), n, exports[j].target) == exports[j].target
  {
    if n > 0 {
      FedOnce(exports, entries, i, j, n - 1);
      OriginOnce(exports, entries, i, j, n - 1);
      if i == n - 1 {
        var ix := Matching(exports, entries[i], 0);
        assert j in ix && Hits(exports, entries[i], ix[0]);
        OriginOnce(exports, entries, i, ix[0], n - 1);
      }
    }
  }

  /** What both forms leave at the target of export `j`, served by entry `i` only. */
  lemma SingleTarget(m: Nodes, exports: seq<Resolved>, entries: seq<Entry>, i: nat, j: nat)
    requires AllMatched(exports, entries) && DistinctTargets(exports) && MatchedOnce(exports, entries)
    requires i < |entries| && j < |exports| && Hits(exports, entries[i], j)
    ensures var q := exports[j].target;
      && At(TarResult(m, exports, entries), q) ==
        Some(File(Contents(entries[i]), exports[j].executable || Bit(m, StreamTarget(exports, entries[i]))))
      && At(ZipResult(m, exports, entries), q) ==
        Some(File(Contents(entries[i]), exports[j].executable || Bit(m, q)))
  {
    var q := exports[j].target;
    assert IsTarget(exports, q);
    assert WantsExec(exports, q) <==> exports[j].executable;
    OriginOnce(exports, entries, i, j, |entries|);
    TarMeaning(m, exports, entries, q);
    forall k | 0 <= k < |entries|
      ensures Suits(exports, entries[k], q) <==> k == i
    {
      FedOnce(exports, entries, i, j, k);
    }
    ZipMeaning(m, exports, entries, q);
    assert LastExport(exports, |exports|, q).value == j;
    ZipFindsIt(exports, entries, i, j);
  }

  lemma ZipFindsIt(exports: seq<Resolved>, entries: seq<Entry>, i: nat, j: nat)
    requires MatchedOnce(exports, entries)
    requires i < |entries| && j < |exports| && Hits(exports, entries[i], j)
    ensures ZipBody(entries, exports[j].archivePath) == Contents(entries[i])
  {
    var names := Names(entries);
    ZipLookup(names, exports[j].archivePath);
    assert MatchesName(names[i], exports[j].archivePath);
    var found := ZipIndex(names, exports[j].archivePath).value;
    assert Hits(exports, entries[found], j);
  }

  /**
   * With every export matched by exactly one entry and distinct targets, the two forms agree on
   * every path and every body, and on the whole tree exactly when the execute bits that were
   * there before are shared as `BitsShared` says.
   */
  lemma TreesAgree(m: Nodes, exports: seq<Resolved>, entries: seq<Entry>)
    requires AllMatched(exports, entries) && DistinctTargets(exports) && MatchedOnce(exports, entries)
    ensures TarResult(m, exports, entries) == ZipResult(m, exports, entries) <==> BitsShared(m, exports, entries)
  {
    var tar, zip := TarResult(m, exports, entries), ZipResult(m, exports, entries);
    if BitsShared(m, exports, entries) {
      forall q: Path
        ensures At(tar, q) == At(zip, q)
      {
        AgreeAt(m, exports, entries, q);
      }
      SameMap(tar, zip);
    }
    if tar == zip {
      forall i, j | 0 <= i < |entries| && 0 <= j < |exports| && Hits(exports, entries[i], j)
        ensures exports[j].executable || Bit(m, exports[j].target) == Bit(m, StreamTarget(exports, entries[i]))
      {
        SingleTarget(m, exports, entries, i, j);
      }
    }
  }

  lemma AgreeAt(m: Nodes, exports: seq<Resolved>, entries: seq<Entry>, q: Path)
    requires AllMatched(exports, entries) && DistinctTargets(exports) && MatchedOnce(exports, entries)
    requires BitsShared(m, exports, entries)
    ensures At(TarResult(m, exports, entries), q) == At(ZipResult(m, exports, entries), q)
  {
    TarMeaning(m, exports, entries, q);
    ZipMeaning(m, exports, entries, q);
    if IsTarget(exports, q) {
      var j :| 0 <= j < |exports| && exports[j].target == q;
      var i := Server(exports, entries, j);
      SingleTarget(m, exports, entries, i, j);
    }
  }

  lemma SameMap(a: Nodes, b: Nodes)
    requires forall q :: At(a, q) == At(b, q)
    ensures a == b
  {
    assert forall q :: q in a ==> At(a, q) == At(b, q);
    assert forall q :: q in b ==> At(a, q) == At(b, q);
  }

  /** On a fresh install root no target is executable yet, and the trees are the same. */
  lemma FreshTreesAgree(m: Nodes, exports: seq<Resolved>, entries: seq<Entry>)
    requires AllMatched(exports, entries) && DistinctTargets(exports) && MatchedOnce(exports, entries)
    requires forall j :: 0 <= j < |exports| ==> !Bit(m, exports[j].target)
    ensures TarResult(m, exports, entries) == ZipResult(m, exports, entries)
  {
    forall i, j | 0 <= i < |entries| && 0 <= j < |exports| && Hits(exports, entries[i], j)
      ensures !Bit(m, StreamTarget(exports, entries[i]))
    {
      var f := FeedOf(exports, entries[i]);
      assert j in f.ix;
      assert TargetAt(exports, f, 0) == exports[f.ix[0]].target;
    }
    TreesAgree(m, exports, entries);
  }

  ghost function TwoCopies(): (r: seq<Resolved>) {
    [Resolved("a", ["x"], false), Resolved("a", ["y"], false)]
  }

  ghost function OneEntry(): (r: seq<Entry>) {
    [Entry(Some("a"), Some([]))]
  }

  lemma TwoCopiesMatch()
    ensures var exports, entries := TwoCopies(), OneEntry();
      && Hits(exports, entries[0], 0) && Hits(exports, entries[0], 1)
      && AllMatched(exports, entries) && DistinctTargets(exports) && MatchedOnce(exports, entries)
  {
    var exports, entries := TwoCopies(), OneEntry();
    assert Hits(exports, entries[0], 0) && Hits(exports, entries[0], 1);
    assert ["x"][0] == "x" && ["y"][0] == "y" && "x"[0] == 'x' && "y"[0] == 'y';
  }

  lemma TwoCopiesStream()
    ensures StreamTarget(TwoCopies(), OneEntry()[0]) == ["x"]
  {
    TwoCopiesMatch();
    var ix := Matching(TwoCopies(), OneEntry()[0], 0);
    assert 0 in ix;
    assert ix[0] == 0;
  }

  /**
   * The agreement does fail: two exports of one entry, installed over a root where the first
   * target is already executable. The tar.gz pass passes that bit on to the second target.
   */
  lemma TreesCanDiffer(m: Nodes)
    requires Bit(m, ["x"]) && !Bit(m, ["y"])
    ensures var exports, entries := TwoCopies(), OneEntry();
      && AllMatched(exports, entries) && DistinctTargets(exports) && MatchedOnce(exports, entries)
      && TarResult(m, exports, entries) != ZipResult(m, exports, entries)
  {
    var exports, entries := TwoCopies(), OneEntry();
    TwoCopiesMatch();
    TwoCopiesStream();
    TreesAgree(m, exports, entries);
    assert Hits(exports, entries[0], 1) && exports[1].target == ["y"];
  }
}
