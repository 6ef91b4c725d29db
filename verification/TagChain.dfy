/**
 * Two readers of a release tag. Both follow annotated tags from object to object until a commit;
 * one bounds the chain and asks for the commit itself, the other only looks out for cycles. What
 * each accepts is stated on the chain of objects, which gives the exact difference.
 */
module TagChain {
  import opened Common

  /** A typed Git object reference. */
  datatype Object = Object(kind: string, sha: string)

  datatype Annotation = Annotation(sha: string, target: Object)

  /** A tag reference: the full name it says it has, and the object it points to. */
  datatype Reference = Reference(name: string, target: Object)

  /**
   * What the Git API answers: references by tag name, annotated tags by address, and the sha of
   * each commit document. A missing key is a failing request.
   */
  datatype Server = Server(refs: map<string, Reference>, tags: map<string, Annotation>, commits: map<string, string>)

  /** The reference of the tag is there and is the one that was asked for. */
  predicate Named(server: Server, tag: string) {
    tag in server.refs && server.refs[tag].name == "refs/tags/" + tag
  }

  const LIMIT := 32

  // ----- the chain of objects -----

  /** The object that a well-formed annotated tag points to. */
  function Follow(server: Server, o: Object): Option<Object> {
    if o.kind == "tag" && FullSha(o.sha) && o.sha in server.tags && server.tags[o.sha].sha == o.sha
    then Some(server.tags[o.sha].target)
    else None
  }

  /** The object after `n` tags. */
  function Nth(server: Server, start: Object, n: nat): Option<Object> {
    if n == 0 then Some(start)
    else
      var before := Nth(server, start, n - 1);
      if before.None? then None else Follow(server, before.value)
  }

  /** The object after `k` tags has this sha. */
  predicate PassedAt(server: Server, start: Object, k: nat, sha: string) {
    Nth(server, start, k).Some? && Nth(server, start, k).value.sha == sha
  }

  /** The chain ends after `n` tags at the commit. */
  predicate Reaches(server: Server, start: Object, n: nat, commit: string) {
    FullSha(commit) && Nth(server, start, n) == Some(Object("commit", commit))
  }

  /** Up to `n`, and `n` included, all objects are there; before `n` all are tags. */
  lemma {:induction false} Earlier(server: Server, start: Object, n: nat, k: nat)
    requires Nth(server, start, n).Some? && k <= n
    ensures Nth(server, start, k).Some?
    ensures k < n ==> Follow(server, Nth(server, start, k).value) == Nth(server, start, k + 1)
    ensures k < n ==> Nth(server, start, k).value.kind == "tag"
  {
    if k < n {
      Earlier(server, start, n - 1, k);
    }
  }

  /** A chain that has passed one tag twice repeats itself: it never reaches a commit. */
  lemma {:induction false} Loops(server: Server, start: Object, j: nat, k: nat, n: nat)
    requires j < k && Nth(server, start, k).Some? && Nth(server, start, k).value.kind == "tag"
    requires Nth(server, start, j).Some? && Nth(server, start, j).value.sha == Nth(server, start, k).value.sha
    ensures Nth(server, start, n).Some? ==> Nth(server, start, n).value.kind == "tag"
  {
    if Nth(server, start, n).Some? {
      if n < k {
        Earlier(server, start, k, n);
      } else if n > k {
        Earlier(server, start, k, j);
        Shift(server, start, j, k, n - k);
        Loops(server, start, j, k, n - k + j);
      }
    }
  }

  lemma {:induction false} Shift(server: Server, start: Object, j: nat, k: nat, d: nat)
    requires Nth(server, start, j).Some? && Nth(server, start, k).Some? && d > 0
    requires Nth(server, start, j).value == Nth(server, start, k).value
    ensures Nth(server, start, k + d) == Nth(server, start, j + d)
  {
    if d > 1 {
      Shift(server, start, j, k, d - 1);
    }
  }

  /** What is on the chain lies before its end, and before the end there are tags only. */
  lemma Order(server: Server, start: Object, n: nat, commit: string, k: nat)
    requires Reaches(server, start, n, commit) && Nth(server, start, k).Some?
    ensures k <= n
    ensures k < n ==> Nth(server, start, k).value.kind == "tag" && Follow(server, Nth(server, start, k).value).Some?
  {
    if n < k {
      Earlier(server, start, k, n);
    } else {
      Earlier(server, start, n, k);
      if k < n {
        Earlier(server, start, n, k + 1);
      }
    }
  }

  /** At most one length reaches the commit. */
  lemma OneLength(server: Server, start: Object, n: nat, m: nat, commit: string)
    requires Reaches(server, start, n, commit) && Reaches(server, start, m, commit)
    ensures n == m
  {
    if n < m {
      Earlier(server, start, m, n);
    } else if m < n {
      Earlier(server, start, n, m);
    }
  }

  // ----- the bounded reader -----

  /** What the bounded reader asks of a chain of `n` tags. */
  ghost predicate Resolvable(server: Server, start: Object, n: nat, commit: string) {
    && Reaches(server, start, n, commit)
    && n < LIMIT
    && commit in server.commits && server.commits[commit] == commit
    && forall k :: 0 <= k < n ==> !PassedAt(server, start, k, commit)
  }

  /** `chain` lists the first `|chain|` objects. */
  ghost predicate Lists(server: Server, start: Object, chain: seq<Object>) {
    forall k :: 0 <= k < |chain| ==> Nth(server, start, k) == Some(chain[k])
  }

  /** The chain that a reference of the right name leads to, if the reader accepts it. */
  method ResolveTag(server: Server, tag: string, commit: string) returns (r: Option<seq<Object>>)
    ensures r.Some? <==>
      Named(server, tag) && exists n: nat :: Resolvable(server, server.refs[tag].target, n, commit)
    ensures r.Some? ==> r.value != [] && Lists(server, server.refs[tag].target, r.value)
    ensures r.Some? ==> Resolvable(server, server.refs[tag].target, |r.value| - 1, commit)
  {
    if tag !in server.refs || server.refs[tag].name != "refs/tags/" + tag {
      return None;
    }
    r := ResolveChain(server, server.refs[tag].target, commit);
  }

  method ResolveChain(server: Server, start: Object, commit: string) returns (r: Option<seq<Object>>)
    ensures r.Some? <==> exists n: nat :: Resolvable(server, start, n, commit)
    ensures r.Some? ==> r.value != [] && Lists(server, start, r.value)
    ensures r.Some? ==> Resolvable(server, start, |r.value| - 1, commit)
  {
    var chain: seq<Object> := [];
    var obj := start;
    while true
      invariant |chain| <= LIMIT && Lists(server, start, chain)
      invariant Nth(server, start, |chain|) == Some(obj)
      invariant forall k :: 0 <= k < |chain| ==> chain[k].kind == "tag"
      decreases LIMIT - |chain|
    {
      if !FullSha(obj.sha) || (exists k :: 0 <= k < |chain| && chain[k].sha == obj.sha) || |chain| >= LIMIT {
        Refused(server, start, chain, obj, commit);
        return None;
      }
      chain := chain + [obj];
      if obj.kind == "commit" {
        if obj.sha != commit || commit !in server.commits || server.commits[commit] != commit {
          EndsAt(server, start, chain, commit);
          return None;
        }
        assert Resolvable(server, start, |chain| - 1, commit);
        return Some(chain);
      }
      if obj.kind != "tag" || obj.sha !in server.tags || server.tags[obj.sha].sha != obj.sha {
        EndsAt(server, start, chain, commit);
        return None;
      }
      obj := server.tags[obj.sha].target;
    }
  }

  /** Where the reader stops before taking the next object, no chain is resolvable. */
  lemma Refused(server: Server, start: Object, chain: seq<Object>, obj: Object, commit: string)
    requires Lists(server, start, chain) && Nth(server, start, |chain|) == Some(obj)
    requires !FullSha(obj.sha) || (exists k :: 0 <= k < |chain| && chain[k].sha == obj.sha) || |chain| >= LIMIT
    ensures forall n: nat :: !Resolvable(server, start, n, commit)
  {
    forall n: nat
      ensures !Resolvable(server, start, n, commit)
    {
      if Resolvable(server, start, n, commit) {
        Order(server, start, n, commit, |chain|);
        if j :| 0 <= j < |chain| && chain[j].sha == obj.sha {
          assert PassedAt(server, start, j, obj.sha);
          if |chain| < n {
            Loops(server, start, j, |chain|, n);
          }
        }
      }
    }
  }

  /** Where the last listed object cannot be followed, only it could have been the commit. */
  lemma EndsAt(server: Server, start: Object, chain: seq<Object>, commit: string)
    requires chain != [] && Lists(server, start, chain) && Follow(server, chain[|chain| - 1]).None?
    requires var last := chain[|chain| - 1];
      last != Object("commit", commit) || commit !in server.commits || server.commits[commit] != commit
    ensures forall n: nat :: !Resolvable(server, start, n, commit)
  {
    forall n: nat
      ensures !Resolvable(server, start, n, commit)
    {
      assert Nth(server, start, |chain| - 1) == Some(chain[|chain| - 1]);
      if Resolvable(server, start, n, commit) {
        Order(server, start, n, commit, |chain| - 1);
      }
    }
  }

  // ----- the unbounded reader -----

  method RequireExact(server: Server, tag: string, commit: string) returns (ok: bool)
    ensures ok <==> Named(server, tag) && exists n: nat :: Reaches(server, server.refs[tag].target, n, commit)
  {
    if tag !in server.refs || server.refs[tag].name != "refs/tags/" + tag {
      return false;
    }
    ok := RequireChain(server, server.refs[tag].target, commit);
  }

  method RequireChain(server: Server, start: Object, commit: string) returns (ok: bool)
    ensures ok <==> exists n: nat :: Reaches(server, start, n, commit)
  {
    var obj := start;
    var seen: set<string> := {};
    ghost var n: nat := 0;
    while obj.kind == "tag"
      invariant Nth(server, start, n) == Some(obj)
      invariant seen <= server.tags.Keys
      invariant forall s :: s in seen ==> exists k :: 0 <= k < n && PassedAt(server, start, k, s)
      decreases server.tags.Keys - seen
    {
      if !FullSha(obj.sha) || obj.sha in seen || obj.sha !in server.tags || server.tags[obj.sha].sha != obj.sha {
        if obj.sha in seen {
          ghost var k :| 0 <= k < n && PassedAt(server, start, k, obj.sha);
          NeverReaches(server, start, k, n, commit);
        } else {
          StopsAt(server, start, n, commit);
        }
        return false;
      }
      seen := seen + {obj.sha};
      assert PassedAt(server, start, n, obj.sha);
      obj := server.tags[obj.sha].target;
      n := n + 1;
    }
    ok := obj.kind == "commit" && FullSha(obj.sha) && FullSha(commit) && obj.sha == commit;
    if ok {
      assert Reaches(server, start, n, commit);
    } else {
      StopsAt(server, start, n, commit);
    }
  }

  lemma NeverReaches(server: Server, start: Object, j: nat, k: nat, commit: string)
    requires j < k && Nth(server, start, k).Some? && Nth(server, start, k).value.kind == "tag"
    requires PassedAt(server, start, j, Nth(server, start, k).value.sha)
    ensures forall n: nat :: !Reaches(server, start, n, commit)
  {
    forall n: nat
      ensures !Reaches(server, start, n, commit)
    {
      Loops(server, start, j, k, n);
    }
  }

  lemma StopsAt(server: Server, start: Object, k: nat, commit: string)
    requires Nth(server, start, k).Some? && Follow(server, Nth(server, start, k).value).None?
    requires !Reaches(server, start, k, commit)
    ensures forall n: nat :: !Reaches(server, start, n, commit)
  {
    forall n: nat
      ensures !Reaches(server, start, n, commit)
    {
      if Reaches(server, start, n, commit) {
        Order(server, start, n, commit, k);
      }
    }
  }

  // ----- the exact difference -----

  /**
   * What the bounded reader accepts the other accepts; and what the other accepts through `n`
   * tags the bounded one accepts exactly when there are at most 31 tags, the commit document is
   * there under its own sha, and no tag on the way has the commit's sha.
   */
  lemma ReadersDiffer(server: Server, start: Object, commit: string)
    ensures (exists n: nat :: Resolvable(server, start, n, commit)) ==>
      exists n: nat :: Reaches(server, start, n, commit)
    ensures forall n: nat :: Reaches(server, start, n, commit) ==>
      ((exists m: nat :: Resolvable(server, start, m, commit)) <==>
        && n <= 31
        && commit in server.commits && server.commits[commit] == commit
        && forall k :: 0 <= k < n ==> !PassedAt(server, start, k, commit))
  {
    if m: nat :| Resolvable(server, start, m, commit) {
      assert Reaches(server, start, m, commit);
    }
    forall n: nat | Reaches(server, start, n, commit)
      ensures (exists m: nat :: Resolvable(server, start, m, commit)) <==> Resolvable(server, start, n, commit)
    {
      if m: nat :| Resolvable(server, start, m, commit) {
        OneLength(server, start, n, m, commit);
      }
    }
  }
}
