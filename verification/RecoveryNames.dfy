/**
 * The names that identify one workflow attempt, and the forms they must have.
 */
module RecoveryNames {
  import opened Common

  /** One attempt of one run of a workflow on a commit. */
  datatype Attempt = Attempt(repository: string, workflow: string, source: string, run: int, number: int)

  predicate OwnerChar(c: char) {
    'A' <= c <= 'Z' || 'a' <= c <= 'z' || IsDigitChar(c) || c == '_' || c == '-'
  }

  predicate RepositoryChar(c: char) {
    OwnerChar(c) || c == '.'
  }

  /** "owner/repository", where the repository is not a dot name. */
  predicate RepositoryName(s: string) {
    exists i :: 0 < i < |s| - 1 && s[i] == '/'
      && (forall k :: 0 <= k < i ==> OwnerChar(s[k]))
      && (forall k :: i < k < |s| ==> RepositoryChar(s[k]))
      && s[i + 1..] != "." && s[i + 1..] != ".."
  }

  const WORKFLOWS := ".github/workflows/"

  predicate EndsWith(s: string, tail: string) {
    |tail| <= |s| && s[|s| - |tail|..] == tail
  }

  /** A portable file directly in the workflow directory, with a YAML extension. */
  predicate WorkflowName(safe: string -> bool, s: string) {
    WORKFLOWS <= s && safe(s[|WORKFLOWS|..]) && (EndsWith(s, ".yml") || EndsWith(s, ".yaml"))
  }

  method CheckRepository(s: string) returns (ok: bool)
    ensures ok <==> RepositoryName(s)
  {
    var i := 0;
    while i < |s| && s[i] != '/'
      invariant i <= |s| && forall k :: 0 <= k < i ==> s[k] != '/'
    {
      i := i + 1;
    }
    if i == 0 || i >= |s| - 1 {
      return false;
    }
    for k := 0 to |s|
      invariant forall l :: 0 <= l < k && l != i ==> if l < i then OwnerChar(s[l]) else RepositoryChar(s[l])
    {
      var c := s[k];
      var plain := 'A' <= c <= 'Z' || 'a' <= c <= 'z' || '0' <= c <= '9' || c == '_' || c == '-';
      if k != i && !plain && (k < i || c != '.') {
        assert forall j :: 0 < j < |s| - 1 && s[j] == '/' && j != i ==> i < j && !OwnerChar(s[i]);
        return false;
      }
    }
    var name := s[i + 1..];
    ok := name != "." && name != "..";
    assert forall j :: 0 < j < |s| - 1 && s[j] == '/' && j != i ==> i < j && !OwnerChar(s[i]);
  }

  method CheckWorkflow(safe: string -> bool, s: string) returns (ok: bool)
    ensures ok <==> WorkflowName(safe, s)
  {
    var prefix := ".github/workflows/";
    if !(prefix <= s) || !safe(s[|prefix|..]) {
      return false;
    }
    var yml := |s| >= 4 && s[|s| - 4..] == ".yml";
    var yaml := |s| >= 5 && s[|s| - 5..] == ".yaml";
    ok := yml || yaml;
  }

  /** The frozen identity of an attempt, name by name. */
  method CheckAttempt(safe: string -> bool, a: Attempt) returns (ok: bool)
    ensures ok <==> WellFormed(safe, a)
  {
    ok := CheckRepository(a.repository);
    if ok {
      ok := CheckWorkflow(safe, a.workflow);
    }
    ok := ok && FullSha(a.source) && a.run > 0 && a.number > 0;
  }

  /** The names of one attempt, written out. */
  lemma NamesWritten()
    ensures var a := Attempt("o/r", ".github/workflows/w.yml", "s", 12, 3);
      && RunUrl(a) == "https://api.github.com/repos/" + ("o/r" + "/actions/runs/" + "12")
      && InvocationUri(a) == "https://github.com/" + ("o/r" + "/actions/runs/" + "12") + "/attempts/" + "3"
      && ArtifactName(a) == "candidate-evidence-r" + "12" + "-a" + "3"
  {
    assert Decimal(12) == Decimal(1) + [DigitOf(2)] == "12" && Decimal(3) == "3";
  }

  /** An artifact name tells attempts apart. */
  lemma ArtifactNamesDiffer(a: Attempt, b: Attempt)
    requires a.run > 0 && a.number > 0 && b.run > 0 && b.number > 0
    ensures ArtifactName(a) == ArtifactName(b) <==> a.run == b.run && a.number == b.number
  {
    if ArtifactName(a) == ArtifactName(b) {
      var pre := "candidate-evidence-r";
      assert ArtifactName(a) == pre + Decimal(a.run) + ("-a" + Decimal(a.number));
      assert ArtifactName(b) == pre + Decimal(b.run) + ("-a" + Decimal(b.number));
      SplitAt(pre, Decimal(a.run), "-a" + Decimal(a.number), Decimal(b.run), "-a" + Decimal(b.number));
      DecimalInjective(a.run, b.run);
      DecimalInjective(a.number, b.number);
    }
  }

  /** Digits followed by a dash are found again. */
  lemma SplitAt(pre: string, x: string, s: string, y: string, t: string)
    requires (forall i :: 0 <= i < |x| ==> IsDigitChar(x[i])) && (forall i :: 0 <= i < |y| ==> IsDigitChar(y[i]))
    requires "-a" <= s && "-a" <= t && pre + x + s == pre + y + t
    ensures x == y && s[2..] == t[2..]
  {
    var u, v := pre + x + s, pre + y + t;
    assert u[|pre| + |x|] == '-' && v[|pre| + |y|] == '-';
    assert forall k :: 0 <= k < |x| ==> u[|pre| + k] == x[k];
    assert forall k :: 0 <= k < |y| ==> v[|pre| + k] == y[k];
    assert u[|pre|..|pre| + |x|] == x && v[|pre|..|pre| + |x|] == y[..|x|];
    assert u[|pre| + |x|..] == s && v[|pre| + |y|..] == t;
  }

  lemma {:induction false} DecimalInjective(m: nat, n: nat)
    requires Decimal(m) == Decimal(n)
    ensures m == n
  {
    var s := Decimal(m);
    if m >= 10 && n >= 10 {
      assert s[..|s| - 1] == Decimal(m / 10) == Decimal(n / 10);
      DecimalInjective(m / 10, n / 10);
    }
    assert s[|s| - 1] == DigitOf(m % 10) == DigitOf(n % 10);
  }

  predicate WellFormed(safe: string -> bool, a: Attempt) {
    RepositoryName(a.repository) && WorkflowName(safe, a.workflow) && FullSha(a.source) && a.run > 0 && a.number > 0
  }

  function RunPath(a: Attempt): string
    requires a.run > 0
  {
    a.repository + "/actions/runs/" + Decimal(a.run)
  }

  /** The run as the jobs of an attempt name it. */
  function RunUrl(a: Attempt): string
    requires a.run > 0
  {
    "https://api.github.com/repos/" + RunPath(a)
  }

  function InvocationUri(a: Attempt): string
    requires a.run > 0 && a.number > 0
  {
    "https://github.com/" + RunPath(a) + "/attempts/" + Decimal(a.number)
  }

  function ArtifactName(a: Attempt): string
    requires a.run > 0 && a.number > 0
  {
    "candidate-evidence-r" + Decimal(a.run) + "-a" + Decimal(a.number)
  }
}
