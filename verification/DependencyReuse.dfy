/**
 * Finding again, without the network, what an earlier run resolved and installed. The local search
 * derives its probes from the declaration, not from the resolved request, and an error on the way
 * to an earlier probe ends it. When it finds something in every tree is stated exactly.
 */
module DependencyReuse {
  import opened Common
  import opened FileSystem
  import opened ArchiveNames
  import opened ArchiveInstall
  import opened DependencyPaths
  import opened PayloadInstall
  import opened DependencyManager
  import opened ExportTrees

  // ----- orders of the local probes -----

  /** `p` follows `before` among the fixed probes. */
  ghost predicate FixedFront(c: Context, kind: Kind, d: Dependency, before: seq<Request>, p: Request) {
    d.package.Some? && before + [p] <= FixedProbes(c, kind, d, d.package.value)
  }

  /** `p` follows `before` when its version directory is the first one listed. */
  ghost predicate ScanFront(c: Context, kind: Kind, d: Dependency, before: seq<Request>, p: Request) {
    && d.package.Some? && d.version.None?
    && p.version.Some? && p.root == VersionRoot(c, kind, d, p.version.value)
    && exists n: nat :: VariantNumber(p, d.package.value, n) && before == ScanBefore(c, kind, d, p, n)
  }

  /** The fixed probes and the first `n` variants of a scanned probe. */
  function ScanBefore(c: Context, kind: Kind, d: Dependency, p: Request, n: nat): seq<Request>
    requires d.package.Some? && VariantNumber(p, d.package.value, n)
  {
    FixedProbes(c, kind, d, d.package.value) + Variants(p.root, p.version, d.package.value)[..n]
  }

  /** `p` can be the probe that follows `before` in an order, which makes `forced` a directory. */
  ghost predicate Foremost(c: Context, kind: Kind, d: Dependency, before: seq<Request>, p: Request, forced: Path) {
    || (forced == [] && FixedFront(c, kind, d, before, p))
    || (forced == p.root && ScanFront(c, kind, d, before, p))
  }

  predicate VariantNumber(p: Request, package: Package, n: nat) {
    var v := Variants(p.root, p.version, package);
    n < |v| && v[n] == p
  }

  /** A scanned probe is a variant for some name, right after the earlier variants for that name. */
  lemma {:induction false} ScansAt(c: Context, kind: Kind, d: Dependency, package: Package, names: seq<string>, t: nat)
    returns (name: string, n: nat)
    requires t < |ScansOf(c, kind, d, package, names)|
    ensures name in names
    ensures var v := Variants(VersionRoot(c, kind, d, name), Some(name), package);
      Ends(ScansOf(c, kind, d, package, names), t, v, n)
  {
    name := names[|names| - 1];
    var a := ScansOf(c, kind, d, package, names[..|names| - 1]);
    var v := Variants(VersionRoot(c, kind, d, name), Some(name), package);
    assert ScansOf(c, kind, d, package, names) == a + v;
    if t < |a| {
      name, n := ScansAt(c, kind, d, package, names[..|names| - 1], t);
      EndsInFirst(a, v, t, Variants(VersionRoot(c, kind, d, name), Some(name), package), n);
    } else {
      n := t - |a|;
      EndsInSecond(a, v, t);
    }
  }

  /** Element `t` of `s` is element `n` of `v`, and the elements of `v` before it precede it. */
  predicate Ends<T(==)>(s: seq<T>, t: nat, v: seq<T>, n: nat) {
    n <= t < |s| && n < |v| && s[t] == v[n] && s[t - n..t] == v[..n]
  }

  lemma EndsInFirst<T>(a: seq<T>, b: seq<T>, t: nat, v: seq<T>, n: nat)
    requires Ends(a, t, v, n)
    ensures Ends(a + b, t, v, n)
  {
    assert (a + b)[t - n..t] == a[t - n..t];
  }

  lemma EndsInSecond<T>(a: seq<T>, b: seq<T>, t: nat)
    requires |a| <= t < |a + b|
    ensures Ends(a + b, t, b, t - |a|)
  {
    assert (a + b)[|a|..t] == b[..t - |a|];
  }

  lemma TriedBefore<T>(a: seq<T>, s: seq<T>, t: nat, v: seq<T>, n: nat)
    requires Ends(s, t, v, n)
    ensures (a + s)[|a| + t] == v[n] && forall b :: b in a + v[..n] ==> b in (a + s)[..|a| + t]
  {
    assert (a + s)[..|a| + t] == a + s[..t];
    assert s[..t] == s[..t - n] + v[..n];
  }

  lemma ScanFrontOf(c: Context, kind: Kind, d: Dependency, names: seq<string>, t: nat) returns (before: seq<Request>)
    requires d.package.Some? && d.version.None? && t < |ScansOf(c, kind, d, d.package.value, names)|
    ensures var j := |FixedProbes(c, kind, d, d.package.value)| + t;
      var rs := WithScans(c, kind, d, d.package.value, names);
      && ScanFront(c, kind, d, before, rs[j]) && rs[j].version.value in names
      && forall b :: b in before ==> b in rs[..j]
  {
    var fixed, scans := FixedProbes(c, kind, d, d.package.value), ScansOf(c, kind, d, d.package.value, names);
    var name, n := ScansAt(c, kind, d, d.package.value, names, t);
    var v := Variants(VersionRoot(c, kind, d, name), Some(name), d.package.value);
    TriedBefore(fixed, scans, t, v, n);
    assert v[n].version == Some(name) && v[n].root == VersionRoot(c, kind, d, name);
    assert VariantNumber(v[n], d.package.value, n);
    before := ScanBefore(c, kind, d, v[n], n);
  }

  /** Every probe of an order is foremost in it, up to scans of other versions. */
  lemma FrontOf(c: Context, kind: Kind, d: Dependency, m: Nodes, rs: seq<Request>, j: nat)
    returns (before: seq<Request>, forced: Path)
    requires ProbeOrder(c, kind, d, m, rs) && j < |rs|
    ensures Foremost(c, kind, d, before, rs[j], forced) && (forced == [] || IsDir(m, forced))
    ensures forall b :: b in before ==> b in rs[..j]
  {
    if j < |FixedProbes(c, kind, d, d.package.value)| {
      before, forced := rs[..j], [];
      FixedFrontOf(c, kind, d, m, rs, j);
    } else {
      before := ListedFrontOf(c, kind, d, m, rs, j);
      forced := rs[j].root;
    }
  }

  lemma FixedFrontOf(c: Context, kind: Kind, d: Dependency, m: Nodes, rs: seq<Request>, j: nat)
    requires ProbeOrder(c, kind, d, m, rs) && d.package.Some?
    requires j < |FixedProbes(c, kind, d, d.package.value)|
    ensures j < |rs| && FixedFront(c, kind, d, rs[..j], rs[j])
  {
    var fixed := FixedProbes(c, kind, d, d.package.value);
    assert fixed <= rs;
    SameStart(fixed, rs, j);
  }

  lemma SameStart<T>(a: seq<T>, b: seq<T>, j: nat)
    requires a <= b && j < |a|
    ensures b[..j] + [b[j]] <= a
  {
    assert b[..j] + [b[j]] == a[..j + 1];
  }

  lemma ListedFrontOf(c: Context, kind: Kind, d: Dependency, m: Nodes, rs: seq<Request>, j: nat)
    returns (before: seq<Request>)
    requires ProbeOrder(c, kind, d, m, rs) && d.package.Some?
    requires |FixedProbes(c, kind, d, d.package.value)| <= j < |rs|
    ensures ScanFront(c, kind, d, before, rs[j]) && IsDir(m, rs[j].root)
    ensures forall b :: b in before ==> b in rs[..j]
  {
    var names := ScanNames(c, kind, d, m, rs);
    before := ScanFrontOf(c, kind, d, names, j - |FixedProbes(c, kind, d, d.package.value)|);
    ListedRoot(m, c, kind, d, names, rs[j]);
  }

  lemma ScanNames(c: Context, kind: Kind, d: Dependency, m: Nodes, rs: seq<Request>) returns (names: seq<string>)
    requires ProbeOrder(c, kind, d, m, rs) && d.package.Some?
    requires |FixedProbes(c, kind, d, d.package.value)| < |rs|
    ensures d.version.None? && Lists(m, c, kind, d, names) && rs == WithScans(c, kind, d, d.package.value, names)
    ensures |rs| == |FixedProbes(c, kind, d, d.package.value)| + |ScansOf(c, kind, d, d.package.value, names)|
  {
    names :| Lists(m, c, kind, d, names) && rs == WithScans(c, kind, d, d.package.value, names);
  }

  lemma ListedRoot(m: Nodes, c: Context, kind: Kind, d: Dependency, names: seq<string>, p: Request)
    requires Lists(m, c, kind, d, names) && p.version.Some? && p.version.value in names
    requires p.root == VersionRoot(c, kind, d, p.version.value)
    ensures IsDir(m, p.root)
  {
    assert Installable(m, c, kind, d, p.version.value);
  }

  /** A listing, with a given name first. */
  lemma Listing(m: Nodes, c: Context, kind: Kind, d: Dependency, first: Option<string>) returns (names: seq<string>)
    requires first.Some? ==> Installable(m, c, kind, d, first.value)
    ensures Lists(m, c, kind, d, names) && (first.Some? ==> names != [] && names[0] == first.value)
  {
    var base := Base(c, kind, d);
    var todo := Subdirectories(m, base);
    forall name
      ensures Installable(m, c, kind, d, name) ==> name in todo
    {
      SubdirectoryListed(m, base, name);
    }
    names := if first.Some? then [first.value] else [];
    todo := if first.Some? then todo - {first.value} else todo;
    while todo != {}
      invariant first.Some? ==> names != [] && names[0] == first.value
      invariant ListsPart(m, c, kind, d, names, todo) && NoneMissed(m, c, kind, d, names, todo)
      decreases todo
    {
      var name :| name in todo;
      ListsMore(m, c, kind, d, names, todo, name);
      todo := todo - {name};
      if Installable(m, c, kind, d, name) {
        names := names + [name];
      }
    }
  }

  lemma {:induction false} ScansStart(c: Context, kind: Kind, d: Dependency, package: Package, names: seq<string>)
    requires names != []
    ensures Variants(VersionRoot(c, kind, d, names[0]), Some(names[0]), package) <=
      ScansOf(c, kind, d, package, names)
  {
    if |names| > 1 {
      ScansStart(c, kind, d, package, names[..|names| - 1]);
    } else {
      assert names[..0] == [];
    }
  }

  /** With its version listed first, a scanned probe follows the fixed ones and its earlier variants. */
  lemma ScanFirst(c: Context, kind: Kind, d: Dependency, before: seq<Request>, p: Request, names: seq<string>)
    requires ScanFront(c, kind, d, before, p) && names != [] && names[0] == p.version.value
    ensures before + [p] <= WithScans(c, kind, d, d.package.value, names)
  {
    var n: nat :| VariantNumber(p, d.package.value, n) && before == ScanBefore(c, kind, d, p, n);
    ScansStart(c, kind, d, d.package.value, names);
    PrefixKept(FixedProbes(c, kind, d, d.package.value), Variants(p.root, p.version, d.package.value), n,
      ScansOf(c, kind, d, d.package.value, names));
  }

  lemma PrefixKept<T>(a: seq<T>, v: seq<T>, n: nat, tail: seq<T>)
    requires n < |v| && v <= tail
    ensures (a + v[..n]) + [v[n]] <= a + tail
  {
    assert (a + v[..n]) + [v[n]] == a + v[..n + 1];
    assert a + tail == (a + v[..n + 1]) + tail[n + 1..];
  }

  /** What is foremost does come first in some order. */
  lemma OrderFrom(c: Context, kind: Kind, d: Dependency, m: Nodes, before: seq<Request>, p: Request, forced: Path)
    returns (rs: seq<Request>)
    requires Foremost(c, kind, d, before, p, forced) && forall q :: q <= forced ==> IsDir(m, q)
    ensures ProbeOrder(c, kind, d, m, rs) && before + [p] <= rs
  {
    if FixedFront(c, kind, d, before, p) {
      rs := SomeOrder(c, kind, d, m);
    } else {
      var version := p.version.value;
      assert Base(c, kind, d) + [version] <= forced && forced <= forced;
      var names := Listing(m, c, kind, d, Some(version));
      rs := WithScans(c, kind, d, d.package.value, names);
      ScanFirst(c, kind, d, before, p, names);
    }
  }

  lemma SomeOrder(c: Context, kind: Kind, d: Dependency, m: Nodes) returns (rs: seq<Request>)
    ensures ProbeOrder(c, kind, d, m, rs)
    ensures d.package.Some? ==> FixedProbes(c, kind, d, d.package.value) <= rs
  {
    rs := [];
    if d.package.Some? {
      var names := Listing(m, c, kind, d, None);
      rs := if d.version.Some? then FixedProbes(c, kind, d, d.package.value)
            else WithScans(c, kind, d, d.package.value, names);
    }
  }

  // ----- when the next search finds it -----

  /** The files that an install of the request leaves, where its destinations resolve. */
  ghost function Asked(r: Request): (l: seq<Mark>) {
    if AllResolve(r.root, Exports(r)) then Wants(r.root, Exports(r)) else []
  }

  /** A probe that the local search can derive from the declaration, on a suitable disk. */
  predicate Probe(c: Context, kind: Kind, d: Dependency, p: Request) {
    Probed(c, kind, d, p) || Scanned(c, kind, d, p)
  }

  /** Some probe of the declaration looks only for what the request installs. */
  ghost predicate ProbeCovered(c: Context, kind: Kind, d: Dependency, r: Request) {
    exists p {:trigger Probe(c, kind, d, p)} :: Probe(c, kind, d, p) && Covers(Asked(r), p)
  }

  /**
   * Wherever a probe can meet an error, an earlier probe looks only for what the request installs
   * and for what the failing probe has found by then.
   */
  ghost predicate NeverCutShort(c: Context, kind: Kind, d: Dependency, r: Request) {
    forall before, p, forced, i {:trigger Foremost(c, kind, d, before, p, forced), Blocks(Asked(r), forced, p, i)} ::
      Foremost(c, kind, d, before, p, forced) && Blocks(Asked(r), forced, p, i) ==>
      EarlierCovers(before, There(Asked(r), p, i))
  }

  ghost predicate EarlierCovers(before: seq<Request>, l: seq<Mark>) {
    exists b {:trigger Covers(l, b)} :: b in before && Covers(l, b)
  }

  /** Wherever the request is present, whatever else is there, every search without disk faults finds something. */
  ghost predicate AlwaysFound(c: Context, kind: Kind, d: Dependency, r: Request) {
    forall m: Nodes, rs {:trigger ProbeOrder(c, kind, d, m, rs)} ::
      Valid(m) && PresentIn(m, r) && ProbeOrder(c, kind, d, m, rs) ==> SearchIn(m, rs).Found?
  }

  lemma ProbeBelow(c: Context, kind: Kind, d: Dependency, p: Request)
    requires Probe(c, kind, d, p)
    ensures p.root != []
  {
    ServesBelow(c, kind, d, p);
  }

  /** Where the request is present, a covering probe is a present local one. */
  lemma CoveredIsFindable(c: Context, kind: Kind, d: Dependency, r: Request, m: Nodes)
    requires Valid(m) && PresentIn(m, r) && ProbeCovered(c, kind, d, r)
    ensures Findable(c, kind, d, m)
  {
    PresentMeans(m, r);
    var p :| Probe(c, kind, d, p) && Covers(Asked(r), p);
    ProbeBelow(c, kind, d, p);
    CoveredIsPresent(m, Asked(r), p);
    PresentListed(m, p);
    assert Local(c, kind, d, m, p);
  }

  /** An error that ends a search is a possible error, and no earlier probe is covered then. */
  lemma CutShort(c: Context, kind: Kind, d: Dependency, r: Request, m: Nodes, rs: seq<Request>, j: nat)
    requires Valid(m) && PresentIn(m, r) && ProbeOrder(c, kind, d, m, rs)
    requires j < |rs| && PassedOver(m, rs, j) && !AbsentIn(m, rs[j]) && !PresentIn(m, rs[j])
    ensures !NeverCutShort(c, kind, d, r)
  {
    PresentMeans(m, r);
    var before, forced := FrontOf(c, kind, d, m, rs, j);
    assert Before([], Asked(r)[0].0) by {
      TargetBelowRoot(r.root, Exports(r)[0].target, Exports(r)[0].target);
    }
    var i := FailedIsBlocked(m, Asked(r), forced, rs[j]);
    if EarlierCovers(before, There(Asked(r), rs[j], i)) {
      var b :| b in before && Covers(There(Asked(r), rs[j], i), b);
      CoveredIsPresent(m, There(Asked(r), rs[j], i), b);
    }
  }

  /** The search in the tree that has nothing but what the request installs. */
  lemma LeastTreeSearch(c: Context, kind: Kind, d: Dependency, r: Request, m: Nodes)
    requires Valid(m) && PresentIn(m, r)
    ensures Valid(LeastTree(Asked(r))) && PresentIn(LeastTree(Asked(r)), r)
    ensures !ProbeCovered(c, kind, d, r) ==> !Findable(c, kind, d, LeastTree(Asked(r)))
  {
    PresentMeans(m, r);
    MetConsistent(m, Asked(r));
    LeastTreeValid(Asked(r));
    LeastTreeOnly(Asked(r));
    PresentMeans(LeastTree(Asked(r)), r);
    if Findable(c, kind, d, LeastTree(Asked(r))) {
      var p :| Local(c, kind, d, LeastTree(Asked(r)), p) && PresentIn(LeastTree(Asked(r)), p);
      PresentIsCovered(LeastTree(Asked(r)), Asked(r), p);
      assert Probe(c, kind, d, p);
    }
  }

  /** No file that the request installs is at or above the root of a probe. */
  lemma AskedBelow(c: Context, kind: Kind, d: Dependency, r: Request, before: seq<Request>, p: Request, forced: Path)
    requires ResolvedFrom(c, kind, d, r) && Foremost(c, kind, d, before, p, forced)
    ensures forall y :: 0 <= y < |Asked(r)| ==> !(Asked(r)[y].0 <= forced)
  {
    ServesBelow(c, kind, d, r);
    forall y | 0 <= y < |Asked(r)|
      ensures !(Asked(r)[y].0 <= forced)
    {
      TargetBelowRoot(r.root, Exports(r)[y].target, Exports(r)[y].target);
      assert |Asked(r)[y].0| > |r.root| >= |forced|;
    }
  }

  /** Where a probe can meet an error that nothing earlier makes up for, some search ends with it. */
  lemma SearchFails(c: Context, kind: Kind, d: Dependency, r: Request, m: Nodes, before: seq<Request>, p: Request,
                    forced: Path, i: nat)
    requires Valid(m) && PresentIn(m, r) && forall y :: 0 <= y < |Asked(r)| ==> !(Asked(r)[y].0 <= forced)
    requires Foremost(c, kind, d, before, p, forced) && Blocks(Asked(r), forced, p, i)
    requires !EarlierCovers(before, There(Asked(r), p, i))
    ensures !AlwaysFound(c, kind, d, r)
  {
    PresentMeans(m, r);
    MetConsistent(m, Asked(r));
    var w := BlockedTree(Asked(r), forced, p, i);
    BlocksResolve(Asked(r), forced, p, i);
    ThereMeets(w, r, p, i);
    var rs := OrderFrom(c, kind, d, w, before, p, forced);
    EndsInError(w, rs, before, p, There(Asked(r), p, i));
  }

  /** A search that reaches a failing probe, or an error before it, finds nothing. */
  lemma EndsInError(w: Nodes, rs: seq<Request>, before: seq<Request>, p: Request, l: seq<Mark>)
    requires before + [p] <= rs && Valid(w) && OnlyAsked(w, l) && !EarlierCovers(before, l)
    requires StatusOf(w, p) == Failed
    ensures !SearchIn(w, rs).Found?
  {
    var j := SearchReaches(w, rs, 0);
    assert rs[|before|] == p;
    if PresentIn(w, rs[j]) {
      PresentIsCovered(w, l, rs[j]);
    }
  }

  lemma ThereMeets(w: Nodes, r: Request, p: Request, i: nat)
    requires Valid(w) && Met(w, There(Asked(r), p, i)) && Exports(r) != [] && AllResolve(r.root, Exports(r))
    ensures PresentIn(w, r)
  {
    forall y | 0 <= y < |Asked(r)|
      ensures IsFile(w, Asked(r)[y].0) && (Asked(r)[y].1 ==> Bit(w, Asked(r)[y].0))
    {
      assert There(Asked(r), p, i)[y] == Asked(r)[y];
    }
    PresentMeans(w, r);
  }

  /**
   * What was resolved and installed is found by every later search, whatever else is on the disk
   * and in whatever order versions are listed, exactly when some probe looks only for what the
   * request installs and no search can be cut short by an error before it finds something.
   */
  lemma ReuseExact(c: Context, kind: Kind, d: Dependency, r: Request, m: Nodes)
    requires ResolvedFrom(c, kind, d, r) && Valid(m) && PresentIn(m, r)
    ensures AlwaysFound(c, kind, d, r) <==> ProbeCovered(c, kind, d, r) && NeverCutShort(c, kind, d, r)
  {
    if ProbeCovered(c, kind, d, r) && NeverCutShort(c, kind, d, r) {
      forall n: Nodes, rs | Valid(n) && PresentIn(n, r) && ProbeOrder(c, kind, d, n, rs)
        ensures SearchIn(n, rs).Found?
      {
        CoveredIsFindable(c, kind, d, r, n);
        SearchMeaning(c, kind, d, n, rs);
        var j := SearchReaches(n, rs, 0);
        if SearchIn(n, rs).SearchFailed? {
          CutShort(c, kind, d, r, n, rs, j);
        }
      }
    }
    if AlwaysFound(c, kind, d, r) {
      LeastTreeSearch(c, kind, d, r, m);
      var rs := SomeOrder(c, kind, d, LeastTree(Asked(r)));
      SearchMeaning(c, kind, d, LeastTree(Asked(r)), rs);
      forall before, p, forced, i | Foremost(c, kind, d, before, p, forced) && Blocks(Asked(r), forced, p, i)
        ensures EarlierCovers(before, There(Asked(r), p, i))
      {
        if !EarlierCovers(before, There(Asked(r), p, i)) {
          AskedBelow(c, kind, d, r, before, p, forced);
          SearchFails(c, kind, d, r, m, before, p, forced, i);
        }
      }
    }
  }

  /**
   * The next search. On a reliable disk it never comes back empty-handed when some probe covers
   * the request, and it finds something unless a probe meets an error that can cut it short.
   */
  method FindAgain(disk: Disk, c: Context, kind: Kind, d: Dependency, ghost r: Request) returns (s: Search)
    requires Valid(disk.nodes) && ResolvedFrom(c, kind, d, r) && PresentIn(disk.nodes, r) && ProbeCovered(c, kind, d, r)
    ensures s.Found? ==> PresentIn(disk.nodes, s.request)
    ensures disk.reliable ==> !s.NotFound?
    ensures disk.reliable && (AllDetectable(c, kind, d, disk.nodes) || NeverCutShort(c, kind, d, r)) ==> s.Found?
  {
    s := FindExisting(disk, c, kind, d);
    if disk.reliable {
      ghost var rs :| ProbeOrder(c, kind, d, disk.nodes, rs) && s == SearchIn(disk.nodes, rs);
      ReuseExact(c, kind, d, r, disk.nodes);
      CoveredIsFindable(c, kind, d, r, disk.nodes);
      SearchMeaning(c, kind, d, disk.nodes, rs);
    }
  }

  // ----- where it succeeds -----

  lemma SelfCovered(r: Request, m: Nodes)
    requires Valid(m) && PresentIn(m, r)
    ensures Covers(Asked(r), r.(expected := None, payload := NoPayload))
  {
    PresentMeans(m, r);
    var p := r.(expected := None, payload := NoPayload);
    assert Exports(p) == Exports(r);
    forall x | 0 <= x < |Exports(p)|
      ensures CoveredBy(Asked(r), p.root, Exports(p)[x])
    {
      assert Asked(r)[x] == (TargetOf(r.root, Exports(r)[x].target).value, Exports(r)[x].executable);
    }
  }

  /** A request whose version and tag are candidates is covered, so only an error can hide it. */
  lemma CandidateIsReused(c: Context, kind: Kind, d: Dependency, r: Request, m: Nodes)
    requires ResolvedFrom(c, kind, d, r) && Valid(m) && PresentIn(m, r)
    requires d.package == Some(r.package)
    requires r.version in VersionCandidates(d.version) && r.tag in TagCandidates(r.version)
    ensures ProbeCovered(c, kind, d, r)
    ensures AlwaysFound(c, kind, d, r) <==> NeverCutShort(c, kind, d, r)
  {
    SelfCovered(r, m);
    assert Probe(c, kind, d, r.(expected := None, payload := NoPayload));
    ReuseExact(c, kind, d, r, m);
  }

  /** In particular a release of a declared version whose tag is that version, with or without a "v". */
  lemma ReleaseIsReused(c: Context, kind: Kind, d: Dependency, r: Request, m: Nodes)
    requires ResolvedFrom(c, kind, d, r) && Valid(m) && PresentIn(m, r)
    requires d.source.GithubRelease? && d.version.Some? && Trim(d.version.value) != ""
    requires r.tag in TagCandidates(r.version)
    ensures ProbeCovered(c, kind, d, r)
    ensures AlwaysFound(c, kind, d, r) <==> NeverCutShort(c, kind, d, r)
  {
    ReleaseIsProbed(d.version.value, c.release(kind, d).value.tag);
    CandidateIsReused(c, kind, d, r, m);
  }

  /** The probe that every search tries first. */
  function FirstProbe(c: Context, kind: Kind, d: Dependency): Request
    requires d.package.Some?
  {
    var v := VersionCandidates(d.version)[0];
    Request(v, TagCandidates(v)[0], RootFor(c, kind, d, v), d.package.value, None, NoPayload)
  }

  lemma {:induction false} ProbesStart(c: Context, kind: Kind, d: Dependency, package: Package,
                                       versions: seq<Option<string>>)
    requires versions != []
    ensures Variants(RootFor(c, kind, d, versions[0]), versions[0], package) <= ProbesOf(c, kind, d, package, versions)
  {
    if |versions| > 1 {
      ProbesStart(c, kind, d, package, versions[..|versions| - 1]);
    } else {
      assert versions[..0] == [];
    }
  }

  lemma FirstOfAll(c: Context, kind: Kind, d: Dependency)
    requires d.package.Some?
    ensures FixedProbes(c, kind, d, d.package.value) != []
    ensures FixedProbes(c, kind, d, d.package.value)[0] == FirstProbe(c, kind, d)
  {
    ProbesStart(c, kind, d, d.package.value, VersionCandidates(d.version));
    var v := VersionCandidates(d.version)[0];
    assert Variants(RootFor(c, kind, d, v), v, d.package.value)[0] == FirstProbe(c, kind, d);
  }

  /** What the first probe covers is found whatever else is there: no error can come before it. */
  lemma FirstIsReused(c: Context, kind: Kind, d: Dependency, r: Request, m: Nodes)
    requires ResolvedFrom(c, kind, d, r) && Valid(m) && PresentIn(m, r)
    requires d.package.Some? && Covers(Asked(r), FirstProbe(c, kind, d))
    ensures AlwaysFound(c, kind, d, r)
  {
    NothingBeforeFirst(c, kind, d, r);
    ReuseExact(c, kind, d, r, m);
  }

  lemma NothingBeforeFirst(c: Context, kind: Kind, d: Dependency, r: Request)
    requires d.package.Some? && Covers(Asked(r), FirstProbe(c, kind, d))
    ensures ProbeCovered(c, kind, d, r) && NeverCutShort(c, kind, d, r)
  {
    var first := FirstProbe(c, kind, d);
    FirstOfAll(c, kind, d);
    ProbesMember(c, kind, d, d.package.value, VersionCandidates(d.version), first);
    assert Probe(c, kind, d, first);
    forall before, p, forced, i | Foremost(c, kind, d, before, p, forced) && Blocks(Asked(r), forced, p, i)
      ensures EarlierCovers(before, There(Asked(r), p, i))
    {
      FirstIsBefore(c, kind, d, before, p, forced);
      CoveredPasses(Asked(r), forced, first);
      assert p != first;
      CoversMore(Asked(r), p, i, first);
    }
  }

  /** Whatever can come first in an order is the first probe or comes after it. */
  lemma FirstIsBefore(c: Context, kind: Kind, d: Dependency, before: seq<Request>, p: Request, forced: Path)
    requires d.package.Some? && Foremost(c, kind, d, before, p, forced)
    ensures p == FirstProbe(c, kind, d) || FirstProbe(c, kind, d) in before
  {
    FirstOfAll(c, kind, d);
    if before == [] {
      assert ([p])[0] == (before + [p])[0] == FirstProbe(c, kind, d);
    } else {
      assert before[0] == FirstProbe(c, kind, d);
    }
  }

  lemma CoveredPasses(l: seq<Mark>, forced: Path, p: Request)
    requires Covers(l, p)
    ensures Exports(p) != [] && forall i :: 0 <= i < |Exports(p)| ==> !Stuck(l, forced, p.root, Exports(p)[i])
  {
    forall i | 0 <= i < |Exports(p)|
      ensures !Stuck(l, forced, p.root, Exports(p)[i])
    {
      assert CoveredBy(l, p.root, Exports(p)[i]);
      var t := TargetOf(p.root, Exports(p)[i].target).value;
      var y :| 0 <= y < |l| && l[y].0 == t;
      assert forall k :: 0 <= k < |t| ==> Before(t[..k], l[y].0);
    }
  }

  lemma CoversMore(l: seq<Mark>, p: Request, i: nat, b: Request)
    requires Covers(l, b)
    ensures Covers(There(l, p, i), b)
  {
    var s := There(l, p, i);
    forall x | 0 <= x < |Exports(b)|
      ensures CoveredBy(s, b.root, Exports(b)[x])
    {
      assert CoveredBy(l, b.root, Exports(b)[x]);
      assert forall y :: 0 <= y < |l| ==> s[y] == l[y];
    }
  }

  /** A release declared without a leading "v" and tagged as declared is always found again. */
  lemma PlainReleaseIsReused(c: Context, kind: Kind, d: Dependency, r: Request, m: Nodes)
    requires ResolvedFrom(c, kind, d, r) && Valid(m) && PresentIn(m, r)
    requires d.source.GithubRelease? && d.version.Some? && Trim(d.version.value) != ""
    requires WithoutV(Trim(d.version.value)) == Trim(d.version.value) && r.tag == TagCandidates(r.version)[0]
    ensures AlwaysFound(c, kind, d, r)
  {
    SelfCovered(r, m);
    assert FirstProbe(c, kind, d) == r.(expected := None, payload := NoPayload);
    FirstIsReused(c, kind, d, r, m);
  }

  // ----- where it fails -----

  /**
   * A release may be installed under another version directory than the one that is tried first.
   * A plain file where the first one would be makes every later search fail.
   */
  lemma ObstructedCandidate(c: Context, kind: Kind, d: Dependency, r: Request, m: Nodes)
    requires ResolvedFrom(c, kind, d, r) && Valid(m) && PresentIn(m, r)
    requires d.source.GithubRelease? && d.version.Some?
    requires Base(c, kind, d) + [NormalizeComponent(c.sha, Trim(d.version.value))] !in m
    ensures var n := m[Base(c, kind, d) + [NormalizeComponent(c.sha, Trim(d.version.value))] := File([], false)];
      && Valid(n) && PresentIn(n, r)
      && forall rs :: ProbeOrder(c, kind, d, n, rs) ==> SearchIn(n, rs) == SearchFailed
    ensures !AlwaysFound(c, kind, d, r)
  {
    ServesBelow(c, kind, d, r);
    ObstructedInstall(c, kind, d, r, m);
  }

  lemma ObstructedInstall(c: Context, kind: Kind, d: Dependency, r: Request, m: Nodes)
    requires Valid(m) && PresentIn(m, r) && d.package == Some(r.package) && d.version.Some?
    requires Base(c, kind, d) <= r.root && |r.root| == |Base(c, kind, d)| + 2
    requires Base(c, kind, d) + [NormalizeComponent(c.sha, Trim(d.version.value))] !in m
    ensures var n := m[Base(c, kind, d) + [NormalizeComponent(c.sha, Trim(d.version.value))] := File([], false)];
      && Valid(n) && PresentIn(n, r)
      && forall rs :: ProbeOrder(c, kind, d, n, rs) ==> SearchIn(n, rs) == SearchFailed
    ensures !AlwaysFound(c, kind, d, r)
  {
    var q := Base(c, kind, d) + [NormalizeComponent(c.sha, Trim(d.version.value))];
    var n := m[q := File([], false)];
    BesideStillPresent(r, m, Base(c, kind, d), q);
    FirstFails(c, kind, d, n, q);
    var rs := SomeOrder(c, kind, d, n);
  }

  /** A file in place of the first version directory makes every search fail. */
  lemma FirstFails(c: Context, kind: Kind, d: Dependency, n: Nodes, q: Path)
    requires d.package.Some? && d.package.value.exports != [] && d.version.Some?
    requires IsFile(n, q) && q == Base(c, kind, d) + [NormalizeComponent(c.sha, Trim(d.version.value))]
    ensures forall rs :: ProbeOrder(c, kind, d, n, rs) ==> SearchIn(n, rs) == SearchFailed
  {
    var first := FirstProbe(c, kind, d);
    FirstOfAll(c, kind, d);
    assert first.root == q + [NormalizeComponent(c.sha, c.platform)];
    ObstructedFirst(n, first, q);
    forall rs | ProbeOrder(c, kind, d, n, rs)
      ensures SearchIn(n, rs) == SearchFailed
    {
      assert rs[0] == first;
    }
  }

  /** So a release whose two directories differ, as with a leading "v", is not always found. */
  lemma LeadingVCanFail(c: Context, kind: Kind, d: Dependency, r: Request, m: Nodes)
    requires ResolvedFrom(c, kind, d, r) && Valid(m) && PresentIn(m, r)
    requires d.source.GithubRelease? && d.version.Some?
    requires NormalizeComponent(c.sha, Trim(d.version.value)) != NormalizeComponent(c.sha, r.version.value)
    ensures !AlwaysFound(c, kind, d, r)
  {
    var base, name := Base(c, kind, d), NormalizeComponent(c.sha, Trim(d.version.value));
    LeastTreeSearch(c, kind, d, r, m);
    ServesBelow(c, kind, d, r);
    assert r.root[|base|] == NormalizeComponent(c.sha, r.version.value);
    NotInLeastTree(r, base + [name]);
    ObstructedCandidate(c, kind, d, r, LeastTree(Asked(r)));
  }

  lemma NotInLeastTree(r: Request, q: Path)
    requires |q| <= |r.root| && !(q <= r.root)
    ensures q !in LeastTree(Asked(r))
  {
    LeastTreeAt(Asked(r), q);
    forall y | 0 <= y < |Asked(r)|
      ensures !(q <= Asked(r)[y].0)
    {
      TargetBelowRoot(r.root, Exports(r)[y].target, Exports(r)[y].target);
      PrefixesOrdered(q, r.root, Asked(r)[y].0);
    }
  }

  /** A file added beside the way to the request's files leaves them as they are. */
  lemma BesideStillPresent(r: Request, m: Nodes, base: Path, q: Path)
    requires Valid(m) && PresentIn(m, r) && q !in m
    requires base <= r.root && |r.root| == |base| + 2 && base <= q && |q| == |base| + 1
    ensures Valid(m[q := File([], false)]) && PresentIn(m[q := File([], false)], r) && Exports(r) != []
  {
    var n := m[q := File([], false)];
    PresentMeans(m, r);
    TargetBelowRoot(r.root, Exports(r)[0].target, Exports(r)[0].target);
    PrefixTrans(base, r.root, Asked(r)[0].0);
    assert Before(base, Asked(r)[0].0) && IsFile(m, Asked(r)[0].0);
    assert q[..|q| - 1] == base;
    AddedBelowDir(m, q, File([], false));
    PresentMeans(n, r);
  }

  /** A file above the root of a probe with exports is an error for it. */
  lemma ObstructedFirst(n: Nodes, p: Request, q: Path)
    requires q < p.root && IsFile(n, q) && Exports(p) != []
    ensures Detect(n, p.root, Exports(p)) == Failed
  {
    var t := TargetOf(p.root, Exports(p)[0].target);
    if t.Some? {
      TargetBelowRoot(p.root, Exports(p)[0].target, Exports(p)[0].target);
      PrefixTrans(q, p.root, t.value);
      assert t.value[..|q|] == q;
    }
  }

  /** Where no probe covers the request, a search among its own files only does not find it. */
  lemma UncoveredIsMissed(c: Context, kind: Kind, d: Dependency, r: Request, m: Nodes, rs: seq<Request>)
    requires ResolvedFrom(c, kind, d, r) && Valid(m) && PresentIn(m, r) && !ProbeCovered(c, kind, d, r)
    requires ProbeOrder(c, kind, d, LeastTree(Asked(r)), rs)
    ensures PresentIn(LeastTree(Asked(r)), r) && !SearchIn(LeastTree(Asked(r)), rs).Found?
  {
    LeastTreeSearch(c, kind, d, r, m);
    SearchMeaning(c, kind, d, LeastTree(Asked(r)), rs);
  }

  /** No candidate of the declared version leads to the directory that `version` is installed in. */
  ghost predicate Misses(c: Context, d: Dependency, version: string) {
    d.version.Some? && forall v :: v in VersionCandidates(d.version) ==>
      NormalizeComponent(c.sha, v.value) != NormalizeComponent(c.sha, version)
  }

  /** A version that is installed in a directory no candidate leads to is covered by no probe. */
  lemma MissedVersion(c: Context, kind: Kind, d: Dependency, r: Request)
    requires ResolvedFrom(c, kind, d, r) && r.version.Some? && Misses(c, d, r.version.value)
    ensures !ProbeCovered(c, kind, d, r)
  {
    forall p | Probe(c, kind, d, p)
      ensures !Covers(Asked(r), p)
    {
      ProbeApart(c, kind, d, r, p);
      if Covers(Asked(r), p) {
        assert CoveredBy(Asked(r), p.root, Exports(p)[0]);
        NothingShared(r, p);
      }
    }
  }

  lemma ProbeApart(c: Context, kind: Kind, d: Dependency, r: Request, p: Request)
    requires ResolvedFrom(c, kind, d, r) && r.version.Some? && Misses(c, d, r.version.value)
    requires Probe(c, kind, d, p)
    ensures Apart(p.root, r.root)
  {
    ServesBelow(c, kind, d, r);
    ServesBelow(c, kind, d, p);
    var n := |Base(c, kind, d)|;
    assert p.version in VersionCandidates(d.version);
    assert p.root[n] == NormalizeComponent(c.sha, p.version.value);
    assert r.root[n] == NormalizeComponent(c.sha, r.version.value);
    SameDepthApart(p.root, r.root);
  }

  lemma NothingShared(r: Request, p: Request)
    requires Apart(p.root, r.root)
    ensures Exports(p) != [] ==> !CoveredBy(Asked(r), p.root, Exports(p)[0])
  {
    if Exports(p) != [] && CoveredBy(Asked(r), p.root, Exports(p)[0]) {
      var t := TargetOf(p.root, Exports(p)[0].target).value;
      var y :| 0 <= y < |Asked(r)| && Asked(r)[y].0 == t;
      TargetBelowRoot(r.root, Exports(r)[y].target, Exports(r)[y].target);
      TargetBelowRoot(p.root, Exports(p)[0].target, Exports(p)[0].target);
      PrefixesOrdered(p.root, r.root, t);
    }
  }

  /**
   * It does happen: a source other than a release keeps the declared version as it is, outer
   * spaces included, whereas every candidate is trimmed. So what was installed is not found.
   */
  lemma SpacedVersionMissed(c: Context, kind: Kind, d: Dependency, r: Request, m: Nodes, rs: seq<Request>)
    requires ResolvedFrom(c, kind, d, r) && !d.source.GithubRelease? && d.version == Some(" 1")
    requires Valid(m) && PresentIn(m, r) && ProbeOrder(c, kind, d, LeastTree(Asked(r)), rs)
    ensures PresentIn(LeastTree(Asked(r)), r) && !SearchIn(LeastTree(Asked(r)), rs).Found?
  {
    SpacedOne(c, d);
    MissedVersion(c, kind, d, r);
    UncoveredIsMissed(c, kind, d, r, m, rs);
  }

  lemma SpacedOne(c: Context, d: Dependency)
    requires d.version == Some(" 1")
    ensures Misses(c, d, " 1")
  {
    var v := " 1";
    assert v[1..] == "1" && White(v[0]) && !White('1');
    assert TrimLeft(v, White) == TrimLeft("1", White) == "1";
    assert Trim(v) == "1" && WithoutV("1") == "1";
    assert Stem("1") == "1" by { assert "1"[1..] == ""; }
    assert PortableComponent("1") && !PortableComponent(v);
    assert NormalizeComponent(c.sha, v)[0] == 's';
  }
}
