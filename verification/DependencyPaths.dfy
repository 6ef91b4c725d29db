/**
 * Where dependencies live: portable path components, install roots, version and tag candidates,
 * and export templates.
 */
module DependencyPaths {
  import opened Common
  import opened FileSystem
  import opened ArchiveNames

  // ----- text helpers -----

  /** The characters `str::trim` removes: Unicode White_Space. */
  predicate White(c: char) {
    || '\t' <= c <= '\r' || c == ' ' || c == '\U{85}' || c == '\U{A0}' || c == '\U{1680}'
    || '\U{2000}' <= c <= '\U{200A}' || c == '\U{2028}' || c == '\U{2029}' || c == '\U{202F}'
    || c == '\U{205F}' || c == '\U{3000}'
  }

  function TrimLeft(s: string, p: char -> bool): (r: string)
    ensures r == "" || !p(r[0])
  {
    if s != "" && p(s[0]) then TrimLeft(s[1..], p) else s
  }

  function TrimRight(s: string, p: char -> bool): (r: string)
    ensures r == "" || !p(r[|r| - 1])
  {
    if s != "" && p(s[|s| - 1]) then TrimRight(s[..|s| - 1], p) else s
  }

  function Trim(s: string): string {
    TrimRight(TrimLeft(s, White), White)
  }

  function WithoutV(s: string): string {
    TrimLeft(s, c => c == 'v')
  }

  function Upper(s: string): (r: string)
    ensures |r| == |s|
  {
    seq(|s|, i requires 0 <= i < |s| => if 'a' <= s[i] <= 'z' then s[i] - 'a' + 'A' else s[i])
  }

  function Lower(s: string): (r: string)
    ensures |r| == |s|
  {
    seq(|s|, i requires 0 <= i < |s| => if 'A' <= s[i] <= 'Z' then s[i] - 'A' + 'a' else s[i])
  }

  predicate Lowercase(c: char) { 'a' <= c <= 'z' }

  predicate ValidSkillId(value: string) {
    var t := Trim(value);
    && t != "" && Lowercase(t[0]) && t[|t| - 1] != '-'
    && forall i :: 1 <= i < |t| ==> Lowercase(t[i]) || IsDigitChar(t[i]) || t[i] == '-'
  }

  // ----- portable components -----

  predicate PortableChar(c: char) {
    Letter(c) || IsDigitChar(c) || c == '-' || c == '_' || c == '.'
  }

  /** The part before the first dot. */
  function Stem(s: string): string {
    if s == "" || s[0] == '.' then "" else [s[0]] + Stem(s[1..])
  }

  predicate ReservedDevice(stem: string) {
    var u := Upper(stem);
    || u in {"CON", "PRN", "AUX", "NUL"}
    || (|u| == 4 && u[..3] in {"COM", "LPT"} && '1' <= u[3] <= '9')
  }

  predicate PortableComponent(raw: string) {
    && Ordinary(raw) && raw[|raw| - 1] != '.'
    && (forall i :: 0 <= i < |raw| ==> PortableChar(raw[i]))
    && !ReservedDevice(Stem(raw))
  }

  ghost predicate IsDigest(f: string -> string) {
    forall s {:trigger f(s)} :: Sha256Text(f(s))
  }

  /** SHA-256 of a text in lower-case hexadecimal, as an uninterpreted function of that shape. */
  type Sha = f: string -> string | IsDigest(f) witness (_: string) => seq(64, _ => '0')

  function NormalizeComponent(sha: Sha, raw: string): string {
    if PortableComponent(raw) then raw else "sha256-" + sha(raw)
  }

  lemma HashedComponent(digest: string)
    requires Sha256Text(digest)
    ensures PortableComponent("sha256-" + digest)
  {
    var s := "sha256-" + digest;
    assert s[0] == 's' && s[6] == '-' && s[|s| - 1] == digest[63];
    assert forall i :: 0 <= i < |s| ==> PortableChar(s[i]) && s[i] != '.' by {
      forall i | 0 <= i < |s|
        ensures PortableChar(s[i]) && s[i] != '.'
      {
        if i >= 7 { assert s[i] == digest[i - 7]; }
      }
    }
    StemWhole(s);
  }

  lemma {:induction false} StemWhole(s: string)
    requires forall i :: 0 <= i < |s| ==> s[i] != '.'
    ensures Stem(s) == s
  {
    if s != "" {
      StemWhole(s[1..]);
    }
  }

  /**
   * Normalization always yields one portable component: never empty, a dot name, a separator, a
   * drive or a device name. It is idempotent, and it identifies two raw values exactly when they
   * are equal or meet at a digest.
   */
  lemma Normalized(sha: Sha, raw: string, other: string)
    ensures var r := NormalizeComponent(sha, raw);
      && PortableComponent(r) && Ordinary(r) && '/' !in r && '\\' !in r && ':' !in r
      && NormalizeComponent(sha, r) == r
    ensures NormalizeComponent(sha, raw) == NormalizeComponent(sha, other) <==>
      || raw == other
      || (!PortableComponent(raw) && other == "sha256-" + sha(raw))
      || (!PortableComponent(other) && raw == "sha256-" + sha(other))
      || (!PortableComponent(raw) && !PortableComponent(other) && sha(raw) == sha(other))
  {
    HashedComponent(sha(raw));
    HashedComponent(sha(other));
    var a, b := "sha256-" + sha(raw), "sha256-" + sha(other);
    assert a[7..] == sha(raw) && b[7..] == sha(other);
  }

  // ----- install roots -----

  datatype Scope = Skill | Host

  /** The directory all versions of one dependency share. */
  function DependencyBase(sha: Sha, root: Path, scope: Scope, skill: string, name: string): Path {
    match scope
    case Host => root + [NormalizeComponent(sha, name)]
    case Skill => root + [skill, NormalizeComponent(sha, name)]
  }

  function InstallRoot(sha: Sha, root: Path, scope: Scope, skill: string, name: string, version: Option<string>,
                       platform: string): Path
  {
    DependencyBase(sha, root, scope, skill, name) + [
      NormalizeComponent(sha, if version.Some? then version.value else "unversioned"),
      NormalizeComponent(sha, platform)]
  }

  ghost predicate Apart(a: Path, b: Path) {
    !(a <= b) && !(b <= a)
  }

  /** Extending two paths that are apart keeps them apart. */
  lemma ApartBelow(a: Path, b: Path, x: Path, y: Path)
    requires Apart(a, b) && a <= x && b <= y
    ensures Apart(x, y)
  {
    PrefixTrans(a, x, y);
    PrefixTrans(b, y, x);
    PrefixesOrdered(a, b, x);
    PrefixesOrdered(a, b, y);
  }

  /** Paths of one depth are apart unless they are equal. */
  lemma SameDepthApart(a: Path, b: Path)
    requires |a| == |b| && a != b
    ensures Apart(a, b)
  {
  }

  /**
   * Install roots under kind roots that are equal or apart have no nesting: distinct roots of
   * the skill scope are never prefixes of each other.
   */
  lemma RootsNeverNested(sha: Sha, a: Path, b: Path, skill: string, n1: string, n2: string,
                         v1: Option<string>, v2: Option<string>, platform: string)
    requires a == b || Apart(a, b)
    ensures var x := InstallRoot(sha, a, Skill, skill, n1, v1, platform);
      var y := InstallRoot(sha, b, Skill, skill, n2, v2, platform);
      x == y || Apart(x, y)
  {
    var x := InstallRoot(sha, a, Skill, skill, n1, v1, platform);
    var y := InstallRoot(sha, b, Skill, skill, n2, v2, platform);
    if a != b {
      ApartBelow(a, b, x, y);
    } else if x != y {
      SameDepthApart(x, y);
    }
  }

  // ----- version and tag candidates -----

  function AddUnique(candidates: seq<Option<string>>, c: Option<string>): seq<Option<string>> {
    if c in candidates then candidates else candidates + [c]
  }

  function VersionCandidates(version: Option<string>): seq<Option<string>> {
    if version.None? then [None]
    else
      var trimmed := Trim(version.value);
      if WithoutV(trimmed) == trimmed then [Some(trimmed)] else [Some(trimmed), Some(WithoutV(trimmed))]
  }

  function TagCandidates(version: Option<string>): seq<Option<string>> {
    if version.None? then [None]
    else
      var plain := WithoutV(Trim(version.value));
      if plain == "" then VersionCandidates(version)
      else AddUnique(VersionCandidates(version), Some("v" + plain))
  }

  /** The version a GitHub release is installed under. */
  function ReleaseVersion(expected: Option<string>, tag: string): string {
    var trimmed := Trim(if expected.Some? then expected.value else tag);
    if trimmed != "" then WithoutV(trimmed) else WithoutV(Trim(tag))
  }

  /**
   * A declared version that names something is installed under one of the versions that the next
   * local probe looks for, so a release is found again without the network.
   */
  lemma ReleaseIsProbed(version: string, tag: string)
    requires Trim(version) != ""
    ensures Some(ReleaseVersion(Some(version), tag)) in VersionCandidates(Some(version))
  {
  }

  // ----- export templates -----

  /** Every occurrence of `pattern`, from the left and without overlaps, replaced by `value`. */
  function Replace(s: string, pattern: string, value: string): string
    requires pattern != ""
    decreases |s|
  {
    if |s| < |pattern| then s
    else if pattern <= s then value + Replace(s[|pattern|..], pattern, value)
    else [s[0]] + Replace(s[1..], pattern, value)
  }

  function Template(raw: string, version: Option<string>, tag: Option<string>): string {
    var v := if version.Some? then Replace(raw, "{version}", version.value) else raw;
    if tag.Some? then Replace(v, "{tag}", tag.value) else v
  }
}
