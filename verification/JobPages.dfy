/**
 * Reading the jobs of one workflow attempt page by page, and checking the required ones. Every
 * page is an answer of the server, which may say anything.
 */
module JobPages {
  import opened Common
  import opened RecoveryNames

  const PER_PAGE := 100
  const MAX_PAGES := 100

  /** A job row as decoded; rows with missing or ill-typed fields are malformed. */
  datatype Job = Malformed | Job(id: int, runId: int, headSha: string, runUrl: string, name: string,
                                 status: string, conclusion: Option<string>)

  /** One answer: anything but an object with an integer total and a list is malformed. */
  datatype Page = BadPage | Page(total: int, jobs: seq<Job>)

  /** The answers to pages 1, 2, … */
  type Server = nat -> Page

  // ----- pagination -----

  function PageJobs(server: Server, k: nat): seq<Job> {
    if server(k).Page? then server(k).jobs else []
  }

  /** The jobs on the first `n` pages. */
  function Jobs(server: Server, n: nat): seq<Job> {
    if n == 0 then [] else Jobs(server, n - 1) + PageJobs(server, n)
  }

  /** Page `k` brings jobs, but not yet all. */
  predicate Growing(server: Server, k: nat, total: int) {
    PageJobs(server, k) != [] && |Jobs(server, k)| < total
  }

  /** The total that the first page declares. */
  function Declared(server: Server): int {
    if server(1).Page? then server(1).total else 0
  }

  /** The first `n` pages are well formed, declare the same total and respect the limits. */
  ghost predicate Steady(server: Server, n: nat, total: int) {
    forall k :: 1 <= k <= n ==> SteadyPage(server, k, total)
  }

  predicate SteadyPage(server: Server, k: nat, total: int) {
    var page := server(k);
    page.Page? && page.total == total && 0 <= total <= PER_PAGE * MAX_PAGES && |page.jobs| <= PER_PAGE
  }

  /** What a successful read of `n` pages means: the pages add up to the declared total, and no fewer did. */
  ghost predicate Complete(server: Server, n: nat, jobs: seq<Job>) {
    && 1 <= n <= MAX_PAGES && jobs == Jobs(server, n)
    && Steady(server, n, |jobs|)
    && forall k :: 1 <= k < n ==> Growing(server, k, |jobs|)
  }

  /** All pages of a complete read declare the total of the first. */
  lemma FirstTotal(server: Server, n: nat, jobs: seq<Job>)
    requires Complete(server, n, jobs)
    ensures |jobs| == Declared(server)
  {
    assert SteadyPage(server, 1, |jobs|);
  }

  lemma AtPage(server: Server, n: nat, jobs: seq<Job>, k: nat)
    requires Complete(server, n, jobs)
    ensures |Jobs(server, n)| == Declared(server)
    ensures 1 <= k < n ==> Growing(server, k, Declared(server))
    ensures 1 <= k <= n ==> SteadyPage(server, k, Declared(server))
  {
    FirstTotal(server, n, jobs);
  }

  /** The read so far neither failed nor finished. */
  ghost predicate Unfinished(server: Server, n: nat, total: int) {
    Steady(server, n, total) && forall k :: 1 <= k <= n ==> Growing(server, k, total)
  }

  ghost predicate Readable(server: Server) {
    exists n: nat, jobs :: Complete(server, n, jobs)
  }

  /** After `n` unfinished pages, a page that is not steady or stops short of the total ends all hope. */
  lemma NotReadable(server: Server, n: nat)
    requires Unfinished(server, n, Declared(server))
    requires n >= MAX_PAGES || !SteadyPage(server, n + 1, Declared(server)) ||
      (!Growing(server, n + 1, Declared(server)) && |Jobs(server, n + 1)| != Declared(server))
    ensures !Readable(server)
  {
    forall m: nat, jobs
      ensures !Complete(server, m, jobs)
    {
      var total := Declared(server);
      assert 1 <= m <= n ==> Growing(server, m, total);
      if Complete(server, m, jobs) {
        AtPage(server, m, jobs, n + 1);
      }
    }
  }

  /** Reads at most a hundred pages, and accepts exactly when they can be read completely. */
  method CollectJobs(server: Server) returns (r: Option<seq<Job>>, read: nat)
    ensures read <= MAX_PAGES
    ensures r.Some? <==> Readable(server)
    ensures r.Some? ==> Complete(server, read, r.value)
  {
    var jobs: seq<Job> := [];
    r, read := None, 0;
    var total := Declared(server);
    while read < MAX_PAGES
      invariant read <= MAX_PAGES && jobs == Jobs(server, read) && Unfinished(server, read, total)
    {
      var next := read + 1;
      var page := server(next);
      if !page.Page? || page.total < 0 || page.total != total || total > PER_PAGE * MAX_PAGES ||
        |page.jobs| > PER_PAGE {
        NotReadable(server, read);
        return None, next;
      }
      jobs := jobs + page.jobs;
      assert SteadyPage(server, next, total);
      if |jobs| == total {
        assert Complete(server, next, jobs);
        return Some(jobs), next;
      }
      if page.jobs == [] || |jobs| > total {
        NotReadable(server, read);
        return None, next;
      }
      read := next;
    }
    NotReadable(server, read);
  }

  // ----- against a consistent server -----

  function Min(a: int, b: int): int { if a < b then a else b }

  /** The server pages one fixed list, a hundred jobs at a time. */
  ghost predicate Pages(server: Server, all: seq<Job>) {
    forall k {:trigger server(k)} :: 1 <= k ==> server(k) == Page(|all|, Slice(all, k))
  }

  /** The jobs on page `k` of a fixed list. */
  function Slice(all: seq<Job>, k: nat): seq<Job>
    requires k > 0
  {
    all[Min((k - 1) * PER_PAGE, |all|)..Min(k * PER_PAGE, |all|)]
  }

  lemma {:induction false} PagesAddUp(server: Server, all: seq<Job>, n: nat)
    requires Pages(server, all)
    ensures Jobs(server, n) == all[..Min(n * PER_PAGE, |all|)]
  {
    if n > 0 {
      PagesAddUp(server, all, n - 1);
      var x, y := Min((n - 1) * PER_PAGE, |all|), Min(n * PER_PAGE, |all|);
      assert PageJobs(server, n) == all[x..y];
      assert all[..x] + all[x..y] == all[..y];
    }
  }

  /** From a consistent server the whole list is read exactly when it has at most ten thousand jobs. */
  lemma ConsistentServer(server: Server, all: seq<Job>)
    requires Pages(server, all)
    ensures Readable(server) <==> |all| <= 10_000
    ensures forall n: nat, jobs :: Complete(server, n, jobs) ==> jobs == all
  {
    forall n: nat, jobs | Complete(server, n, jobs)
      ensures jobs == all && |all| <= PER_PAGE * MAX_PAGES
    {
      FirstTotal(server, n, jobs);
      PagesAddUp(server, all, n);
      assert SteadyPage(server, 1, |jobs|);
    }
    if |all| <= PER_PAGE * MAX_PAGES {
      var n: nat := if all == [] then 1 else (|all| + PER_PAGE - 1) / PER_PAGE;
      PagesAddUp(server, all, n);
      forall k | 1 <= k <= n
        ensures SteadyPage(server, k, |all|)
      {
        assert server(k).Page?;
      }
      forall k | 1 <= k < n
        ensures Growing(server, k, |all|)
      {
        PagesAddUp(server, all, k);
        assert server(k).Page?;
      }
      assert Complete(server, n, all);
    }
  }

  // ----- the required jobs -----

  /** The run the jobs must belong to. */
  datatype Run = Run(id: int, source: string, url: string)

  predicate Belongs(run: Run, j: Job) {
    j.Job? && j.id > 0 && j.runId == run.id && j.headSha == run.source && j.runUrl == run.url
  }

  predicate Succeeded(j: Job) {
    j.Job? && j.status == "completed" && j.conclusion == Some("success")
  }

  /** Every job is one of the run's, with its own id. */
  ghost predicate AllOurs(run: Run, jobs: seq<Job>) {
    && (forall i :: 0 <= i < |jobs| ==> Belongs(run, jobs[i]))
    && forall i, j :: 0 <= i < j < |jobs| ==> jobs[i].id != jobs[j].id
  }

  /** Job `i` is the only one with its name, and it succeeded. */
  ghost predicate OnlySuccess(jobs: seq<Job>, i: nat) {
    && i < |jobs| && Succeeded(jobs[i])
    && forall j :: 0 <= j < |jobs| && jobs[j].Job? && jobs[j].name == jobs[i].name ==> j == i
  }

  /** Exactly one job has this name, and it succeeded. */
  ghost predicate Met(jobs: seq<Job>, name: string) {
    exists i: nat :: OnlySuccess(jobs, i) && jobs[i].name == name
  }

  ghost predicate RequirementsMet(jobs: seq<Job>, required: seq<string>) {
    forall x :: 0 <= x < |required| ==> Met(jobs, required[x])
  }

  /** `selected` maps the required names met so far to the positions of their jobs. */
  ghost predicate Selection(jobs: seq<Job>, required: seq<string>, n: nat, selected: map<string, nat>)
    requires n <= |jobs|
  {
    && (forall s :: s in selected ==>
      s in required && selected[s] < n && Succeeded(jobs[selected[s]]) && jobs[selected[s]].name == s)
    && forall i :: 0 <= i < n && jobs[i].Job? && jobs[i].name in required ==>
      jobs[i].name in selected && selected[jobs[i].name] == i
  }

  /** The successful jobs with the required names, in the order in which they are required. */
  predicate Selected(jobs: seq<Job>, required: seq<string>, picked: seq<Job>) {
    && |picked| == |required|
    && forall x :: 0 <= x < |required| ==>
         picked[x] in jobs && Succeeded(picked[x]) && picked[x].name == required[x]
  }

  /** Where the requirements are met there is only one selection. */
  lemma SelectedOnce(jobs: seq<Job>, required: seq<string>, a: seq<Job>, b: seq<Job>)
    requires RequirementsMet(jobs, required) && Selected(jobs, required, a) && Selected(jobs, required, b)
    ensures a == b
  {
    forall x | 0 <= x < |required|
      ensures a[x] == b[x]
    {
      assert Met(jobs, required[x]);
      var i: nat :| OnlySuccess(jobs, i) && jobs[i].name == required[x];
      var j :| 0 <= j < |jobs| && jobs[j] == a[x];
      var k :| 0 <= k < |jobs| && jobs[k] == b[x];
      assert j == i && k == i;
    }
  }

  method SelectJobs(run: Run, jobs: seq<Job>, required: seq<string>) returns (r: Option<seq<Job>>)
    ensures r.Some? <==> AllOurs(run, jobs) && RequirementsMet(jobs, required)
    ensures r.Some? ==> Selected(jobs, required, r.value)
  {
    var selected: map<string, nat> := map[];
    var seen: set<int> := {};
    for i := 0 to |jobs|
      invariant AllOurs(run, jobs[..i])
      invariant forall d :: d in seen <==> exists k :: 0 <= k < i && jobs[k].id == d
      invariant Selection(jobs, required, i, selected)
    {
      var job := jobs[i];
      if job.Malformed? || job.id <= 0 || job.id in seen || job.runId != run.id || job.headSha != run.source ||
        job.runUrl != run.url {
        assert !Belongs(run, job) || job.id in seen;
        return None;
      }
      seen := seen + {job.id};
      if job.name in required {
        if job.name in selected || job.status != "completed" || job.conclusion != Some("success") {
          Unmet(jobs, required, i, selected);
          return None;
        }
        selected := selected[job.name := i];
      }
    }
    assert jobs[..|jobs|] == jobs;
    if exists x :: 0 <= x < |required| && required[x] !in selected {
      MissingName(jobs, required, selected);
      return None;
    }
    AllMet(jobs, required, selected);
    r := Some(seq(|required|, x requires 0 <= x < |required| => jobs[selected[required[x]]]));
  }

  lemma Unmet(jobs: seq<Job>, required: seq<string>, i: nat, selected: map<string, nat>)
    requires i < |jobs| && Selection(jobs, required, i, selected)
    requires jobs[i].Job? && jobs[i].name in required && (jobs[i].name in selected || !Succeeded(jobs[i]))
    ensures !RequirementsMet(jobs, required)
  {
    var x :| 0 <= x < |required| && required[x] == jobs[i].name;
    if jobs[i].name in selected {
      assert jobs[selected[jobs[i].name]].name == jobs[i].name;
    }
    forall k: nat
      ensures !(OnlySuccess(jobs, k) && jobs[k].name == required[x])
    {
    }
  }

  lemma MissingName(jobs: seq<Job>, required: seq<string>, selected: map<string, nat>)
    requires Selection(jobs, required, |jobs|, selected)
    requires exists x :: 0 <= x < |required| && required[x] !in selected
    ensures !RequirementsMet(jobs, required)
  {
    var x :| 0 <= x < |required| && required[x] !in selected;
    forall k: nat
      ensures !(OnlySuccess(jobs, k) && jobs[k].name == required[x])
    {
    }
  }

  lemma AllMet(jobs: seq<Job>, required: seq<string>, selected: map<string, nat>)
    requires Selection(jobs, required, |jobs|, selected)
    requires forall x :: 0 <= x < |required| ==> required[x] in selected
    ensures RequirementsMet(jobs, required)
  {
    forall x | 0 <= x < |required|
      ensures Met(jobs, required[x])
    {
      var i := selected[required[x]];
      assert OnlySuccess(jobs, i) && jobs[i].name == required[x];
    }
  }

  /** Collecting and selecting together: what is accepted is complete, ours, and meets the requirements. */
  method VerifyJobs(server: Server, run: Run, required: seq<string>) returns (r: Option<seq<Job>>, read: nat)
    ensures read <= MAX_PAGES
    ensures r.Some? <==> JobsVerified(server, run, required)
    ensures r.Some? ==> SelectedFrom(server, required, r.value)
  {
    var jobs;
    jobs, read := CollectJobs(server);
    if jobs.None? {
      return None, read;
    }
    r := SelectJobs(run, jobs.value, required);
    forall n: nat, other | Complete(server, n, other)
      ensures other == jobs.value
    {
      SameRead(server, n, other, read, jobs.value);
    }
  }

  ghost predicate JobsVerified(server: Server, run: Run, required: seq<string>) {
    exists n: nat, jobs :: Complete(server, n, jobs) && AllOurs(run, jobs) && RequirementsMet(jobs, required)
  }

  /** The selection from the complete listing, of which there is only one. */
  ghost predicate SelectedFrom(server: Server, required: seq<string>, picked: seq<Job>) {
    exists n: nat, jobs :: Complete(server, n, jobs) && Selected(jobs, required, picked)
  }

  /** All complete reads are the same read. */
  lemma SameRead(server: Server, n: nat, a: seq<Job>, m: nat, b: seq<Job>)
    requires Complete(server, n, a) && Complete(server, m, b)
    ensures n == m && a == b
  {
    FirstTotal(server, n, a);
    FirstTotal(server, m, b);
    assert n < m ==> Growing(server, n, |b|);
    assert m < n ==> Growing(server, m, |a|);
  }

  // ----- the attempt itself -----

  /** The phase the caller names; only two are known. */
  datatype Phase = Candidate | Completion | Unknown

  /** The attempt document; missing or ill-typed fields make it malformed. */
  datatype Document = BadDocument | Document(id: int, number: int, repository: string, headRepository: string,
                                             headSha: string, path: string, workflowId: int, status: string,
                                             conclusion: Option<string>)

  /** A list of required names that can be asked for: not empty, no empty name, no name twice. */
  predicate Askable(required: seq<string>) {
    && required != []
    && (forall i :: 0 <= i < |required| ==> required[i] != "")
    && forall i, j :: 0 <= i < j < |required| ==> required[i] != required[j]
  }

  /** The path without an optional "@ref" suffix. */
  function WithoutRef(path: string): (r: string)
    ensures r <= path && '@' !in r && (r == path || path[|r|] == '@')
  {
    if path == "" || path[0] == '@' then "" else [path[0]] + WithoutRef(path[1..])
  }

  /** A completed attempt has a conclusion; one in progress has none and is good for a candidate only. */
  predicate StatusFits(phase: Phase, d: Document) {
    d.Document? &&
    if d.status == "completed" then
      && d.conclusion.Some? && d.conclusion.value != ""
      && (phase.Completion? ==> d.conclusion.value == "success")
    else phase.Candidate? && d.status == "in_progress" && d.conclusion.None?
  }

  predicate Identifies(a: Attempt, d: Document) {
    && d.Document? && d.id == a.run && d.number == a.number
    && d.repository == a.repository && d.headRepository == a.repository && d.headSha == a.source
    && WithoutRef(d.path) == a.workflow && d.workflowId > 0
  }

  /** What the frozen input must satisfy before anything is asked. */
  predicate Acceptable(safe: string -> bool, a: Attempt, phase: Phase, required: seq<string>) {
    WellFormed(safe, a) && !phase.Unknown? && Askable(required)
  }

  method CheckRequired(required: seq<string>) returns (ok: bool)
    ensures ok <==> Askable(required)
  {
    ok := required != [];
    var names: set<string> := {};
    for i := 0 to |required|
      invariant ok <==>
        && required != [] && (forall k :: 0 <= k < i ==> required[k] != "")
        && forall k, l :: 0 <= k < l < i ==> required[k] != required[l]
      invariant forall s :: s in names <==> exists k :: 0 <= k < i && required[k] == s
    {
      if required[i] == "" || required[i] in names {
        ok := false;
      }
      names := names + {required[i]};
    }
  }

  /** The attempt document, field by field as it is judged. */
  method CheckDocument(a: Attempt, phase: Phase, d: Document) returns (ok: bool)
    requires phase.Candidate? || phase.Completion?
    ensures ok <==> Identifies(a, d) && StatusFits(phase, d)
  {
    if d.BadDocument? || d.id != a.run || d.number != a.number {
      return false;
    }
    if d.repository != a.repository || d.headRepository != a.repository || d.headSha != a.source {
      return false;
    }
    var path := BeforeAt(d.path);
    if path != a.workflow || d.workflowId <= 0 {
      return false;
    }
    if d.status == "completed" {
      if d.conclusion.None? || d.conclusion.value == "" {
        return false;
      }
    } else if !phase.Candidate? || d.status != "in_progress" || d.conclusion.Some? {
      return false;
    }
    if phase.Completion? && (d.status != "completed" || d.conclusion != Some("success")) {
      return false;
    }
    ok := true;
  }

  /** What stands before the first "@", or everything. */
  method BeforeAt(path: string) returns (r: string)
    ensures r == WithoutRef(path)
  {
    var n := 0;
    while n < |path| && path[n] != '@'
      invariant n <= |path| && '@' !in path[..n]
    {
      n := n + 1;
    }
    r := path[..n];
    assert |WithoutRef(path)| == n;
  }

  /**
   * The whole check of one attempt: frozen input, attempt document and jobs. The selected jobs are
   * returned in the order in which they were required.
   */
  method VerifyAttempt(safe: string -> bool, d: Document, server: Server, a: Attempt, phase: Phase,
                       required: seq<string>)
    returns (r: Option<seq<Job>>, read: nat)
    ensures read <= MAX_PAGES
    ensures r.Some? <==>
      && Acceptable(safe, a, phase, required) && Identifies(a, d) && StatusFits(phase, d)
      && JobsVerified(server, Run(a.run, a.source, RunUrl(a)), required)
    ensures r.Some? ==> SelectedFrom(server, required, r.value)
    ensures !Acceptable(safe, a, phase, required) || !Identifies(a, d) || !StatusFits(phase, d) ==> read == 0
  {
    r, read := None, 0;
    var frozen := CheckAttempt(safe, a);
    if !frozen || (!phase.Candidate? && !phase.Completion?) {
      return;
    }
    var askable := CheckRequired(required);
    if !askable {
      return;
    }
    var known := CheckDocument(a, phase, d);
    if !known {
      return;
    }
    r, read := VerifyJobs(server, Run(a.run, a.source, RunUrl(a)), required);
  }
}
