/**
 * The download cache: one file per cache key. A cached file is reused while it passes the check
 * that the caller asks for, and it is replaced only as a whole, by a response that passes it.
 */
module DownloadCache {
  import opened Common
  import opened FileSystem
  import opened DependencyPaths

  /** What the contents must satisfy before they are handed out. */
  datatype Check = Anything | Digest(text: string) | Text

  datatype Policy = Reuse | Refresh

  /** SHA-256 in hexadecimal and UTF-8 validity, as arbitrary functions of the bytes. */
  datatype Judge = Judge(hash: seq<Byte> -> string, utf8: seq<Byte> -> bool)

  /** What the server sends to request number `n`: a whole body, or a failure at any stage. */
  type Answers = nat -> Option<seq<Byte>>

  /** A digest is asked for by 64 hexadecimal digits, in either case and with outer spaces. */
  predicate WellPosed(check: Check) {
    check.Digest? ==> Sha256Text(Lower(Trim(check.text)))
  }

  predicate Passes(judge: Judge, check: Check, body: seq<Byte>) {
    match check
    case Anything => true
    case Digest(text) => judge.hash(body) == Lower(Trim(text))
    case Text => judge.utf8(body)
  }

  // ----- what is obtained -----

  /** The cached file is handed out as it is. */
  predicate Reusable(judge: Judge, check: Check, policy: Policy, cached: Option<seq<Byte>>) {
    policy.Reuse? && cached.Some? && Passes(judge, check, cached.value)
  }

  /** A cached text that is not UTF-8 is an error; only a digest mismatch leads to a new download. */
  predicate Refused(judge: Judge, check: Check, policy: Policy, cached: Option<seq<Byte>>) {
    policy.Reuse? && cached.Some? && check.Text? && !Passes(judge, check, cached.value)
  }

  /** How many requests may be made: a second one only after a fresh download failed its digest. */
  function Budget(check: Check, policy: Policy, cached: Option<seq<Byte>>): nat {
    if check.Digest? && !(policy.Reuse? && cached.Some?) then 2 else 1
  }

  /** The requests from number `from` on, at most `left` of them, while digests do not match. */
  function Ask(judge: Judge, check: Check, answers: Answers, from: nat, left: nat): (Option<seq<Byte>>, nat)
    decreases left
  {
    if left == 0 then (None, from)
    else if answers(from).None? then (None, from + 1)
    else if Passes(judge, check, answers(from).value) then (answers(from), from + 1)
    else Ask(judge, check, answers, from + 1, left - 1)
  }

  /** The contents handed out, if any, and the number of the next request. */
  function Obtained(judge: Judge, check: Check, policy: Policy, cached: Option<seq<Byte>>, answers: Answers, from: nat):
    (Option<seq<Byte>>, nat)
  {
    if !WellPosed(check) || Refused(judge, check, policy, cached) then (None, from)
    else if Reusable(judge, check, policy, cached) then (cached, from)
    else Ask(judge, check, answers, from, Budget(check, policy, cached))
  }

  /** The requests from `from` up to `next` were all answered, and none passed. */
  predicate AllFailed(judge: Judge, check: Check, answers: Answers, from: nat, next: nat) {
    forall k :: from <= k < next ==> answers(k).Some? && !Passes(judge, check, answers(k).value)
  }

  /** Request `n` is answered by contents that pass, after bodies that all arrived and did not. */
  predicate FirstPassing(judge: Judge, check: Check, answers: Answers, from: nat, n: nat) {
    && from <= n && answers(n).Some? && Passes(judge, check, answers(n).value)
    && AllFailed(judge, check, answers, from, n)
  }

  lemma {:induction false} AskMeaning(judge: Judge, check: Check, answers: Answers, from: nat, left: nat, n: nat)
    ensures var r := Ask(judge, check, answers, from, left);
      && from <= r.1 <= from + left
      && (n < from + left && FirstPassing(judge, check, answers, from, n) ==> r == (answers(n), n + 1))
      && (r.0.Some? ==> r.1 > from && FirstPassing(judge, check, answers, from, r.1 - 1) && answers(r.1 - 1) == r.0)
    decreases left
  {
    if left > 0 {
      AskMeaning(judge, check, answers, from + 1, left - 1, n);
    }
  }

  /**
   * What is handed out passes the check. It is the cached file, and then nothing was asked, or
   * the first answer that passes; and it is handed out whenever there is one among the first two
   * for a digest with nothing cached to reuse, and when the first one passes otherwise.
   */
  lemma ObtainedMeaning(judge: Judge, check: Check, policy: Policy, cached: Option<seq<Byte>>, answers: Answers,
                       from: nat, body: seq<Byte>, n: nat)
    ensures var r := Obtained(judge, check, policy, cached, answers, from);
      r == (Some(body), n) <==>
        && WellPosed(check) && !Refused(judge, check, policy, cached)
        && if Reusable(judge, check, policy, cached) then n == from && cached == Some(body)
           else
             && from < n <= from + (if check.Digest? && (cached.None? || policy.Refresh?) then 2 else 1)
             && FirstPassing(judge, check, answers, from, n - 1) && answers(n - 1) == Some(body)
    ensures from <= Obtained(judge, check, policy, cached, answers, from).1 <= from + 2
  {
    AskMeaning(judge, check, answers, from, Budget(check, policy, cached), if n > 0 then n - 1 else 0);
  }

  /**
   * The requests in numbers. With a digest and nothing cached, a first body that arrives with
   * another digest is asked for once more, and the second one is final. A cached file with another
   * digest leaves one request, and so does every other check; a failure is never followed by one.
   */
  lemma RequestsMade(judge: Judge, check: Check, policy: Policy, cached: Option<seq<Byte>>, answers: Answers, from: nat)
    requires check.Digest? ==> LowerHex(Lower(Trim(check.text)), 64)
    ensures var r := Obtained(judge, check, policy, cached, answers, from);
      && (!check.Digest? ==> r.1 <= from + 1)
      && (check.Digest? && !HasDigest(judge, check.text, cached) ==>
          if answers(from).None? || HasDigest(judge, check.text, answers(from)) then r == (answers(from), from + 1)
          else if cached.Some? && policy.Reuse? then r == (None, from + 1)
          else if HasDigest(judge, check.text, answers(from + 1)) then r == (answers(from + 1), from + 2)
          else r == (None, from + 2))
      && (check.Digest? && policy.Reuse? && HasDigest(judge, check.text, cached) ==> r == (cached, from))
  {
    assert Ask(judge, check, answers, from + 1, 0) == (None, from + 1);
    assert Ask(judge, check, answers, from + 2, 0) == (None, from + 2);
    assert Ask(judge, check, answers, from + 1, 1) ==
      if answers(from + 1).Some? && Passes(judge, check, answers(from + 1).value) then (answers(from + 1), from + 2)
      else (None, from + 2);
  }

  /** What is no digest is never obtained, and nothing is asked. */
  lemma MalformedRefused(judge: Judge, text: string, policy: Policy, cached: Option<seq<Byte>>, answers: Answers,
                         from: nat)
    requires !LowerHex(Lower(Trim(text)), 64)
    ensures Obtained(judge, Digest(text), policy, cached, answers, from) == (None, from)
  {
  }

  /** There is a body, and its digest is the one asked for. */
  predicate HasDigest(judge: Judge, text: string, body: Option<seq<Byte>>) {
    body.Some? && judge.hash(body.value) == Lower(Trim(text))
  }

  // ----- the files -----

  /** What is cached at `p`. */
  function Cached(m: Nodes, p: Path): Option<seq<Byte>> {
    if IsFile(m, p) then Some(m[p].body) else None
  }

  /** The cache directory can be made, and nothing but a file is in the way of the cached one. */
  ghost predicate Usable(m: Nodes, cache: Path, name: string) {
    NoObstacle(m, cache) && (cache + [name] in m ==> IsFile(m, cache + [name]) || Dangling(m, cache + [name]))
  }

  /** Everything except the file at `target` is as before; new files may have appeared. */
  ghost predicate OthersKept(a: Nodes, b: Nodes, target: Path) {
    forall q :: q in a && q != target ==> q in b && b[q] == a[q]
  }

  /** `q` is as before, or a directory made on the way to the cache. */
  predicate Same(a: Nodes, b: Nodes, cache: Path, q: Path) {
    if q in a then q in b && b[q] == a[q] else q in b ==> b[q].Dir? && q <= cache
  }

  /** Everything except the file at `target` is as before, apart from directories made for the cache. */
  ghost predicate OnlyAt(a: Nodes, b: Nodes, cache: Path, target: Path) {
    forall q {:trigger Same(a, b, cache, q)} :: q != target ==> Same(a, b, cache, q)
  }

  ghost predicate SameAt(a: Nodes, b: Nodes, p: Path) {
    (p in a <==> p in b) && (p in a ==> a[p] == b[p])
  }

  /** A temporary file beside the target, at most. */
  ghost predicate Littered(a: Nodes, b: Nodes, cache: Path, name: string) {
    b == a || exists p, part :: Unused(a, cache, name, p) && b == a[p := File(part, false)]
  }

  lemma LitterHarmless(a: Nodes, b: Nodes, cache: Path, name: string)
    requires Littered(a, b, cache, name)
    ensures Confined(a, b, cache) && OthersKept(a, b, cache + [name]) && SameAt(a, b, cache + [name])
  {
    if b != a {
      var p, part :| Unused(a, cache, name, p) && b == a[p := File(part, false)];
      assert (cache + [name])[|cache|] == name;
    }
    assert forall p {:trigger Spared(a, b, cache, p)} :: !(cache <= p) ==> Spared(a, b, cache, p);
  }

  lemma StoredConfined(a: Nodes, cache: Path, name: string, node: Node)
    ensures Confined(a, a[cache + [name] := node], cache)
  {
    var b := a[cache + [name] := node];
    assert forall p {:trigger Spared(a, b, cache, p)} :: !(cache <= p) ==> Spared(a, b, cache, p);
  }

  /** The temporary file goes when it is dropped, as far as the disk lets it. */
  method Discard(disk: Disk, cache: Path, name: string, temp: Path, ghost part: seq<Byte>, ghost before: Nodes)
    requires Valid(before) && Valid(disk.nodes)
    requires Unused(before, cache, name, temp) && disk.nodes == before[temp := File(part, false)]
    modifies disk
    ensures Valid(disk.nodes) && Littered(before, disk.nodes, cache, name)
    ensures disk.reliable ==> disk.nodes == before
  {
    assert forall k :: 0 <= k < |temp| ==> Before(temp[..k], temp);
    assert forall q :: q in before ==> !(temp <= q) by {
      forall q | q in before
        ensures !(temp <= q)
      {
        assert temp <= q ==> temp == q || Before(temp, q);
      }
    }
    assert Without(disk.nodes, temp) == before;
    var _ := disk.RemoveFile(temp);
  }

  datatype Ending = Published | Mismatched | Broken

  /** One request: the body is staged beside the target, checked, and renamed over it. */
  method Attempt(disk: Disk, judge: Judge, check: Check, cache: Path, name: string, answer: Option<seq<Byte>>)
    returns (r: Ending)
    requires Valid(disk.nodes)
    modifies disk
    ensures Valid(disk.nodes)
    ensures r.Published? ==> answer.Some? && Passes(judge, check, answer.value)
    ensures r.Published? ==> disk.nodes == old(disk.nodes)[cache + [name] := File(answer.value, false)]
    ensures r.Mismatched? ==> check.Digest? && answer.Some? && !Passes(judge, check, answer.value)
    ensures !r.Published? ==> Littered(old(disk.nodes), disk.nodes, cache, name)
    ensures disk.reliable && !r.Published? ==> disk.nodes == old(disk.nodes)
    ensures disk.reliable && Replaceable(old(disk.nodes), cache + [name]) && answer.Some? ==>
      r == if Passes(judge, check, answer.value) then Published else if check.Digest? then Mismatched else Broken
  {
    ghost var before := disk.nodes;
    var target := cache + [name];
    assert target[..|target| - 1] == cache;
    var part: seq<Byte> := *;
    var cut: bool := *;
    if answer.None? && cut {
      // The response is refused before any file is made.
      return Broken;
    }
    if answer.Some? {
      part := answer.value;
    }
    var temp := disk.Stage(cache, name, part);
    if temp.None? {
      return Broken;
    }
    if answer.None? || !Passes(judge, check, answer.value) {
      Discard(disk, cache, name, temp.value, part, before);
      return if answer.Some? && check.Digest? then Mismatched else Broken;
    }
    assert target[|cache|] == name;
    var ok := disk.Rename(temp.value, target);
    if !ok {
      Discard(disk, cache, name, temp.value, part, before);
      return Broken;
    }
    assert disk.nodes == before[target := File(answer.value, false)];
    r := Published;
  }

  /** The tree after the outcome `o`: what was downloaded is at the target. */
  ghost function Kept(m: Nodes, target: Path, o: (Option<seq<Byte>>, nat), from: nat): (r: Nodes) {
    if o.0.Some? && o.1 > from then m[target := File(o.0.value, false)] else m
  }

  /** The same, the cache directory having been made. */
  ghost function Stored(m: Nodes, cache: Path, name: string, o: (Option<seq<Byte>>, nat), from: nat): (r: Nodes) {
    Kept(WithDirs(m, cache), cache + [name], o, from)
  }

  /** Nothing but a file is in the way of the cached one. */
  predicate Slot(m: Nodes, target: Path) {
    Replaceable(m, target) && (target in m ==> IsFile(m, target) || Dangling(m, target))
  }

  /** The state while the requests are made, `rooted` being the tree before the first of them. */
  ghost predicate Asking(rooted: Nodes, now: Nodes, cache: Path, name: string) {
    && Valid(now) && Confined(rooted, now, cache)
    && OthersKept(rooted, now, cache + [name]) && SameAt(rooted, now, cache + [name])
  }

  lemma AskingMore(rooted: Nodes, a: Nodes, b: Nodes, cache: Path, name: string)
    requires Asking(rooted, a, cache, name) && Valid(b) && Littered(a, b, cache, name)
    ensures Asking(rooted, b, cache, name)
  {
    LitterHarmless(a, b, cache, name);
    ConfinedTrans(rooted, a, b, cache);
  }

  lemma AskingDone(rooted: Nodes, a: Nodes, cache: Path, name: string, node: Node)
    requires Asking(rooted, a, cache, name)
    ensures var b := a[cache + [name] := node];
      Confined(rooted, b, cache) && OthersKept(rooted, b, cache + [name])
  {
    StoredConfined(a, cache, name, node);
    ConfinedTrans(rooted, a, a[cache + [name] := node], cache);
  }

  /** The requests of one call, at most `budget` of them. */
  method MakeRequests(disk: Disk, judge: Judge, check: Check, cache: Path, name: string, budget: nat, answers: Answers,
                 from: nat)
    returns (ok: bool, next: nat)
    requires Valid(disk.nodes) && 1 <= budget <= 2 && (!check.Digest? ==> budget == 1)
    modifies disk
    ensures Valid(disk.nodes) && Confined(old(disk.nodes), disk.nodes, cache)
    ensures OthersKept(old(disk.nodes), disk.nodes, cache + [name])
    ensures !ok ==> SameAt(old(disk.nodes), disk.nodes, cache + [name])
    ensures from < next <= from + budget
    ensures ok ==> FirstPassing(judge, check, answers, from, next - 1) && IsFile(disk.nodes, cache + [name])
    ensures ok ==> disk.nodes[cache + [name]] == File(answers(next - 1).value, false)
    ensures disk.reliable && !ok ==> disk.nodes == old(disk.nodes)
    ensures disk.reliable && ok ==>
      disk.nodes == old(disk.nodes)[cache + [name] := File(answers(next - 1).value, false)]
    ensures disk.reliable && Replaceable(old(disk.nodes), cache + [name]) ==>
      var o := Ask(judge, check, answers, from, budget);
      next == o.1 && (ok <==> o.0.Some?) && (ok ==> o.0 == answers(next - 1))
  {
    ghost var rooted := disk.nodes;
    ok, next := false, from;
    SameConfined(rooted, cache);
    while next < from + budget
      invariant from <= next <= from + budget
      invariant Asking(rooted, disk.nodes, cache, name)
      invariant disk.reliable ==> disk.nodes == rooted
      invariant AllFailed(judge, check, answers, from, next)
      invariant Ask(judge, check, answers, from, budget) == Ask(judge, check, answers, next, from + budget - next)
    {
      ghost var before := disk.nodes;
      var verdict := Attempt(disk, judge, check, cache, name, answers(next));
      next := next + 1;
      if verdict.Published? {
        AskingDone(rooted, before, cache, name, File(answers(next - 1).value, false));
        return true, next;
      }
      AskingMore(rooted, before, disk.nodes, cache, name);
      if verdict.Broken? {
        return;
      }
    }
  }

  /** The tree with the cache directory in it: what is cached stays, and the target can be replaced. */
  lemma WithCache(m: Nodes, cache: Path, name: string)
    requires Valid(m)
    ensures OthersKept(m, WithDirs(m, cache), cache + [name]) && SameAt(m, WithDirs(m, cache), cache + [name])
    ensures Cached(WithDirs(m, cache), cache + [name]) == Cached(m, cache + [name])
    ensures Usable(m, cache, name) ==> Slot(WithDirs(m, cache), cache + [name])
  {
    var target := cache + [name];
    assert target[..|target| - 1] == cache;
    DirsKeepNodes(m, cache);
    WithDirsAt(m, cache, target);
    WithDirsAt(m, cache, cache);
    assert cache in m && NoObstacle(m, cache) ==> IsDir(m, cache);
  }

  lemma OnlyAtThen(a: Nodes, b: Nodes, c: Nodes, cache: Path, target: Path)
    requires OnlyAt(a, b, cache, target)
    ensures (forall q :: q != target ==> SameAt(b, c, q)) ==> OnlyAt(a, c, cache, target)
  {
    if forall q :: q != target ==> SameAt(b, c, q) {
      forall q | q != target
        ensures Same(a, c, cache, q)
      {
        assert Same(a, b, cache, q) && SameAt(b, c, q);
      }
    }
  }

  lemma CreatedOnly(m: Nodes, cache: Path, q: Path, target: Path)
    requires q <= cache
    ensures OnlyAt(m, WithDirs(m, q), cache, target)
  {
    forall x
      ensures Same(m, WithDirs(m, q), cache, x)
    {
      WithDirsAt(m, q, x);
      PrefixTrans(x, q, cache);
    }
  }

  /** `fs::create_dir_all` of the cache root. */
  method MakeCache(disk: Disk, cache: Path, name: string) returns (ok: bool)
    requires Valid(disk.nodes)
    modifies disk
    ensures Valid(disk.nodes) && Confined(old(disk.nodes), disk.nodes, cache)
    ensures OthersKept(old(disk.nodes), disk.nodes, cache + [name])
    ensures SameAt(old(disk.nodes), disk.nodes, cache + [name])
    ensures ok ==> disk.nodes == WithDirs(old(disk.nodes), cache)
    ensures OnlyAt(old(disk.nodes), disk.nodes, cache, cache + [name])
    ensures disk.reliable && NoObstacle(old(disk.nodes), cache) ==> ok
  {
    ok := disk.CreateDirAll(cache);
    if disk.nodes != old(disk.nodes) {
      ghost var q :| q <= cache && disk.nodes == WithDirs(old(disk.nodes), q);
      CreatedConfined(old(disk.nodes), cache, q);
      CreatedOnly(old(disk.nodes), cache, q, cache + [name]);
      DirsKeepNodes(old(disk.nodes), q);
      WithDirsAt(old(disk.nodes), q, cache + [name]);
    } else {
      SameConfined(disk.nodes, cache);
    }
  }

  /**
   * A payload from the cache or from the server. Whatever fails, the cached file is what it was
   * before or a whole body that passes the check, and no other file is touched; what is handed out
   * passes the check, and is the cached file or the answer to the last request. On a reliable disk
   * the outcome and the tree are determined by the cached file and the answers.
   */
  method Obtain(disk: Disk, judge: Judge, cache: Path, name: string, allowed: bool, check: Check, policy: Policy,
                answers: Answers, from: nat)
    returns (r: Option<Path>, next: nat)
    requires Valid(disk.nodes)
    modifies disk
    ensures Valid(disk.nodes) && Confined(old(disk.nodes), disk.nodes, cache)
    ensures OthersKept(old(disk.nodes), disk.nodes, cache + [name])
    ensures disk.reliable ==> OnlyAt(old(disk.nodes), disk.nodes, cache, cache + [name])
    ensures from <= next <= from + 2
    ensures !allowed ==> r.None? && next == from && disk.nodes == old(disk.nodes)
    ensures r.None? || next == from ==> SameAt(old(disk.nodes), disk.nodes, cache + [name])
    ensures r.Some? ==> r.value == cache + [name] && IsFile(disk.nodes, r.value)
    ensures r.Some? ==> WellPosed(check) && Passes(judge, check, disk.nodes[r.value].body)
    ensures r.Some? && check.Digest? ==> HasDigest(judge, check.text, Some(disk.nodes[r.value].body))
    ensures r.Some? && check.Text? ==> judge.utf8(disk.nodes[r.value].body)
    ensures r.Some? && next > from ==> answers(next - 1) == Some(disk.nodes[r.value].body)
    ensures policy.Refresh? && r.Some? ==> next > from
    ensures disk.reliable && allowed && Usable(old(disk.nodes), cache, name) ==>
      var o := Obtained(judge, check, policy, Cached(old(disk.nodes), cache + [name]), answers, from);
      && next == o.1 && (r.Some? <==> o.0.Some?) && disk.nodes == Stored(old(disk.nodes), cache, name, o, from)
  {
    r, next := None, from;
    SameConfined(disk.nodes, cache);
    if !allowed {
      return;
    }
    var made := MakeCache(disk, cache, name);
    if !made || !WellPosed(check) {
      return;
    }
    ghost var rooted := disk.nodes;
    WithCache(old(disk.nodes), cache, name);
    r, next := Consult(disk, judge, cache, name, check, policy, answers, from);
    ConfinedTrans(old(disk.nodes), rooted, disk.nodes, cache);
    OnlyAtThen(old(disk.nodes), rooted, disk.nodes, cache, cache + [name]);
  }

  /** The cache lookup and the requests, once the cache directory is there. */
  method Consult(disk: Disk, judge: Judge, cache: Path, name: string, check: Check, policy: Policy, answers: Answers,
                 from: nat)
    returns (r: Option<Path>, next: nat)
    requires Valid(disk.nodes) && WellPosed(check)
    modifies disk
    ensures Valid(disk.nodes) && Confined(old(disk.nodes), disk.nodes, cache)
    ensures OthersKept(old(disk.nodes), disk.nodes, cache + [name])
    ensures disk.reliable ==> forall q :: q != cache + [name] ==> SameAt(old(disk.nodes), disk.nodes, q)
    ensures from <= next <= from + 2
    ensures r.None? || next == from ==> SameAt(old(disk.nodes), disk.nodes, cache + [name])
    ensures r.Some? ==> r.value == cache + [name] && IsFile(disk.nodes, r.value)
    ensures r.Some? ==> Passes(judge, check, disk.nodes[r.value].body)
    ensures r.Some? && next > from ==> answers(next - 1) == Some(disk.nodes[r.value].body)
    ensures policy.Refresh? && r.Some? ==> next > from
    ensures disk.reliable && Slot(old(disk.nodes), cache + [name]) ==>
      var o := Obtained(judge, check, policy, Cached(old(disk.nodes), cache + [name]), answers, from);
      && next == o.1 && (r.Some? <==> o.0.Some?)
      && disk.nodes == Kept(old(disk.nodes), cache + [name], o, from)
  {
    r, next := None, from;
    SameConfined(disk.nodes, cache);
    var target := cache + [name];
    var fault: bool := *;
    if (target in disk.nodes && !IsFile(disk.nodes, target) && !Dangling(disk.nodes, target)) ||
      (fault && !disk.reliable) {
      return;
    }
    var cached := Cached(disk.nodes, target);
    if policy.Reuse? && cached.Some? {
      var unread: bool := *;
      if Passes(judge, check, cached.value) && (check.Anything? || disk.reliable || !unread) {
        return Some(target), next;
      }
      if check.Text? {
        return;
      }
    }
    var ok;
    ok, next := MakeRequests(disk, judge, check, cache, name, Budget(check, policy, cached), answers, from);
    r := if ok then Some(target) else None;
  }
}
