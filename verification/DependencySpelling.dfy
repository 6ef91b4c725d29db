/**
 * Names, versions and places of dependencies in terms of the texts themselves: what trimming and
 * lower-casing do, which path components are kept as they are, which versions and tags are tried
 * for a declared one, how templates are filled in, and which subtree each kind lives in.
 */
module DependencySpelling {
  import opened Common
  import opened FileSystem
  import opened ArchiveNames
  import opened DependencyPaths
  import opened PayloadInstall
  import opened DependencyManager
  import opened DependencyInstall
  import opened DependencyRuns

  // ----- trimming and case -----

  predicate AllWhite(s: string) {
    forall i :: 0 <= i < |s| ==> White(s[i])
  }

  /** The characters with the Unicode property White_Space. */
  const WHITE_SPACE: seq<int> := [
    0x9, 0xA, 0xB, 0xC, 0xD, 0x20, 0x85, 0xA0, 0x1680, 0x2000, 0x2001, 0x2002, 0x2003, 0x2004, 0x2005, 0x2006, 0x2007,
    0x2008, 0x2009, 0x200A, 0x2028, 0x2029, 0x202F, 0x205F, 0x3000]

  lemma WhiteExactly(c: char)
    ensures White(c) <==> c as int in WHITE_SPACE
  {
    if White(c) {
      var n := c as int;
      assert 0x9 <= n <= 0xD ==> WHITE_SPACE[n - 0x9] == n;
      assert WHITE_SPACE[5] == 0x20 && WHITE_SPACE[6] == 0x85 && WHITE_SPACE[7] == 0xA0 && WHITE_SPACE[8] == 0x1680;
      assert 0x2000 <= n <= 0x200A ==> WHITE_SPACE[n - 0x2000 + 9] == n;
      assert WHITE_SPACE[20] == 0x2028 && WHITE_SPACE[21] == 0x2029 && WHITE_SPACE[22] == 0x202F;
      assert WHITE_SPACE[23] == 0x205F && WHITE_SPACE[24] == 0x3000;
    }
  }

  lemma {:induction false} TrimLeftPadded(a: string, s: string, p: char -> bool)
    requires (forall i :: 0 <= i < |a| ==> p(a[i])) && (s == "" || !p(s[0]))
    ensures TrimLeft(a + s, p) == s
  {
    if a == "" {
      assert a + s == s;
    } else {
      assert (a + s)[1..] == a[1..] + s;
      TrimLeftPadded(a[1..], s, p);
    }
  }

  lemma {:induction false} TrimRightPadded(s: string, b: string, p: char -> bool)
    requires (forall i :: 0 <= i < |b| ==> p(b[i])) && (s == "" || !p(s[|s| - 1]))
    ensures TrimRight(s + b, p) == s
  {
    if b == "" {
      assert s + b == s;
    } else {
      assert (s + b)[..|s + b| - 1] == s + b[..|b| - 1];
      TrimRightPadded(s, b[..|b| - 1], p);
    }
  }

  predicate Tight(s: string) {
    s == "" || (!White(s[0]) && !White(s[|s| - 1]))
  }

  /** White space around a tight text, and nothing else, is trimmed. */
  lemma Trimmed(a: string, s: string, b: string)
    requires AllWhite(a) && AllWhite(b) && Tight(s)
    ensures Trim(a + s + b) == s
  {
    if s == "" {
      assert a + s + b == (a + b) + "";
      TrimLeftPadded(a + b, "", White);
    } else {
      assert a + s + b == a + (s + b);
      TrimLeftPadded(a, s + b, White);
      TrimRightPadded(s, b, White);
    }
  }

  function Vs(k: nat): string {
    seq(k, _ => 'v')
  }

  lemma WithoutVs(k: nat, p: string)
    requires p == "" || p[0] != 'v'
    ensures WithoutV(Vs(k) + p) == p
  {
    TrimLeftPadded(Vs(k), p, c => c == 'v');
  }

  /** Exactly the ASCII letters change case, which are 32 apart. */
  lemma Cases(s: string, i: nat)
    requires i < |s|
    ensures Lower(s)[i] as int == s[i] as int + if 'A' <= s[i] <= 'Z' then 32 else 0
    ensures Upper(s)[i] as int == s[i] as int - if 'a' <= s[i] <= 'z' then 32 else 0
  {
  }

  /** A skill id is a lower-case letter, then such letters, digits and dashes, with no dash at the end. */
  lemma SkillIdsExactly(a: string, t: string, b: string)
    requires AllWhite(a) && AllWhite(b) && Tight(t)
    ensures ValidSkillId(a + t + b) <==>
      && t != "" && 'a' <= t[0] <= 'z' && t[|t| - 1] != '-'
      && forall i :: 0 <= i < |t| ==> 'a' <= t[i] <= 'z' || '0' <= t[i] <= '9' || t[i] == '-'
  {
    Trimmed(a, t, b);
  }

  // ----- components that are kept -----

  const DEVICES: seq<string> := [
    "CON", "PRN", "AUX", "NUL", "COM1", "COM2", "COM3", "COM4", "COM5", "COM6", "COM7", "COM8", "COM9",
    "LPT1", "LPT2", "LPT3", "LPT4", "LPT5", "LPT6", "LPT7", "LPT8", "LPT9"]

  predicate PlainChar(c: char) {
    'a' <= c <= 'z' || 'A' <= c <= 'Z' || '0' <= c <= '9' || c == '-' || c == '_' || c == '.'
  }

  /** `raw` is a device name in some case, or one with something after a dot. */
  ghost predicate NamesDevice(raw: string) {
    exists k, tail {:trigger Device(raw, k, tail)} :: Device(raw, k, tail)
  }

  ghost predicate Device(raw: string, k: nat, tail: string) {
    && k < |DEVICES| && |raw| == |DEVICES[k]| + |tail| && Upper(raw[..|DEVICES[k]|]) == DEVICES[k]
    && raw[|DEVICES[k]|..] == tail && (tail == "" || tail[0] == '.')
  }

  lemma {:induction false} StemCut(stem: string, tail: string)
    requires '.' !in stem && (tail == "" || tail[0] == '.')
    ensures Stem(stem + tail) == stem
  {
    if stem == "" {
      assert stem + tail == tail;
    } else {
      assert (stem + tail)[1..] == stem[1..] + tail;
      StemCut(stem[1..], tail);
    }
  }

  lemma {:induction false} StemIsCut(raw: string)
    ensures Stem(raw) <= raw && '.' !in Stem(raw) && (|Stem(raw)| < |raw| ==> raw[|Stem(raw)|] == '.')
  {
    if raw != "" && raw[0] != '.' {
      StemIsCut(raw[1..]);
      assert raw == [raw[0]] + raw[1..];
    }
  }

  /** The reserved stems are the devices of the table. */
  lemma ReservedTable(stem: string)
    ensures ReservedDevice(stem) <==> exists k :: 0 <= k < |DEVICES| && Upper(stem) == DEVICES[k]
  {
    var u := Upper(stem);
    if ReservedDevice(stem) {
      if |u| == 4 && u[..3] in {"COM", "LPT"} && '1' <= u[3] <= '9' {
        var n := u[3] as int - 49;
        var k := (if u[..3] == "COM" then 4 else 13) + n;
        PortNumber(n);
        assert u == u[..3] + [u[3]];
        assert u == DEVICES[k];
      } else {
        assert u == DEVICES[0] || u == DEVICES[1] || u == DEVICES[2] || u == DEVICES[3];
      }
    }
    if k :| 0 <= k < |DEVICES| && u == DEVICES[k] {
      if k >= 4 {
        PortNumber(if k < 13 then k - 4 else k - 13);
      }
    }
  }

  lemma PortNumber(n: nat)
    requires n < 9
    ensures DEVICES[4 + n] == "COM" + [(49 + n) as char] && DEVICES[13 + n] == "LPT" + [(49 + n) as char]
  {
  }

  /** Which raw values are kept as path components. */
  lemma PortableExactly(raw: string)
    ensures PortableComponent(raw) <==>
      && raw != "" && raw[|raw| - 1] != '.' && (forall i :: 0 <= i < |raw| ==> PlainChar(raw[i])) && !NamesDevice(raw)
  {
    StemExactly(raw);
    assert raw != "" ==> (Ordinary(raw) && raw[|raw| - 1] != '.' <==> raw[|raw| - 1] != '.');
  }

  lemma StemExactly(raw: string)
    ensures ReservedDevice(Stem(raw)) <==> NamesDevice(raw)
  {
    if ReservedDevice(Stem(raw)) {
      StemIsDevice(raw);
    }
    if NamesDevice(raw) {
      DeviceIsStem(raw);
    }
  }

  lemma StemIsDevice(raw: string)
    requires ReservedDevice(Stem(raw))
    ensures NamesDevice(raw)
  {
    StemIsCut(raw);
    ReservedTable(Stem(raw));
    var k :| 0 <= k < |DEVICES| && Upper(Stem(raw)) == DEVICES[k];
    assert Device(raw, k, raw[|Stem(raw)|..]);
  }

  lemma DeviceIsStem(raw: string)
    requires NamesDevice(raw)
    ensures ReservedDevice(Stem(raw))
  {
    var k: nat, tail :| Device(raw, k, tail);
    var stem := raw[..|DEVICES[k]|];
    UndottedDevice(stem, k);
    assert raw == stem + tail;
    StemCut(stem, tail);
    ReservedTable(stem);
  }

  lemma UndottedDevice(stem: string, k: nat)
    requires k < |DEVICES| && Upper(stem) == DEVICES[k]
    ensures '.' !in stem
  {
    if k >= 4 {
      PortNumber(if k < 13 then k - 4 else k - 13);
    }
    assert forall i :: 0 <= i < |stem| ==> stem[i] == '.' ==> Upper(stem)[i] == '.';
    assert forall i :: 0 <= i < |DEVICES[k]| ==> DEVICES[k][i] != '.';
  }

  // ----- versions and tags -----

  lemma VersionParts(a: string, k: nat, p: string, b: string)
    requires AllWhite(a) && AllWhite(b) && p != "" && p[0] != 'v' && Tight(p)
    ensures Trim(a + (Vs(k) + p) + b) == Vs(k) + p && WithoutV(Vs(k) + p) == p
    ensures (Vs(k) + p == p <==> k == 0) && (Vs(k) + p == "v" + p <==> k == 1)
  {
    var kept := Vs(k) + p;
    assert kept[0] == (if k == 0 then p[0] else 'v') && kept[|kept| - 1] == p[|p| - 1];
    Trimmed(a, kept, b);
    WithoutVs(k, p);
    assert |kept| == k + |p|;
  }

  /**
   * A declared version is white space around some leading "v"s and the plain version. Tried are
   * the version as declared and the plain one; as tags also the plain one with one "v". A release
   * is installed under the plain version.
   */
  lemma CandidatesExactly(a: string, k: nat, p: string, b: string, tag: string)
    requires AllWhite(a) && AllWhite(b) && p != "" && p[0] != 'v' && Tight(p)
    ensures var declared, kept := a + (Vs(k) + p) + b, Vs(k) + p;
      && (forall v :: v in VersionCandidates(Some(declared)) <==> v == Some(kept) || v == Some(p))
      && VersionCandidates(Some(declared))[0] == Some(kept)
      && (forall t :: t in TagCandidates(Some(declared)) <==> t == Some(kept) || t == Some(p) || t == Some("v" + p))
      && TagCandidates(Some(declared))[0] == Some(kept)
      && ReleaseVersion(Some(declared), tag) == p
    ensures VersionCandidates(None) == [None] && TagCandidates(None) == [None]
  {
    VersionParts(a, k, p, b);
    TagsOf(a + (Vs(k) + p) + b, Vs(k) + p, p);
  }

  lemma TagsOf(declared: string, kept: string, p: string)
    requires Trim(declared) == kept && WithoutV(kept) == p && p != ""
    ensures forall v :: v in VersionCandidates(Some(declared)) <==> v == Some(kept) || v == Some(p)
    ensures VersionCandidates(Some(declared))[0] == Some(kept)
    ensures forall t :: t in TagCandidates(Some(declared)) <==> t == Some(kept) || t == Some(p) || t == Some("v" + p)
    ensures TagCandidates(Some(declared))[0] == Some(kept)
  {
  }

  /** Without a declared version a release is installed under its tag, trimmed and without leading "v"s. */
  lemma TagIsVersion(a: string, k: nat, p: string, b: string)
    requires AllWhite(a) && AllWhite(b) && p != "" && p[0] != 'v' && Tight(p)
    ensures ReleaseVersion(None, a + (Vs(k) + p) + b) == p
  {
    VersionParts(a, k, p, b);
  }

  // ----- templates -----

  /** The pieces with `x` between neighbours. */
  function With(pieces: seq<string>, x: string): string
    requires pieces != []
  {
    if |pieces| == 1 then pieces[0] else pieces[0] + (x + With(pieces[1..], x))
  }

  lemma {:induction false} ReplaceSkips(a: string, rest: string, pattern: string, value: string)
    requires pattern != "" && pattern[0] !in a
    ensures Replace(a + rest, pattern, value) == a + Replace(rest, pattern, value)
  {
    if a == "" {
      assert a + rest == rest;
    } else {
      var s := a + rest;
      assert s[0] == a[0] && s[1..] == a[1..] + rest;
      ReplaceSkips(a[1..], rest, pattern, value);
      assert a[0] != pattern[0];
      assert [a[0]] + (a[1..] + Replace(rest, pattern, value)) == a + Replace(rest, pattern, value);
      if |s| < |pattern| {
        ReplaceShort(rest, pattern, value);
      }
    }
  }

  lemma ReplaceShort(s: string, pattern: string, value: string)
    requires pattern != "" && |s| < |pattern|
    ensures Replace(s, pattern, value) == s
  {
  }

  /** Every occurrence of the pattern gives way to the value, and the rest stays. */
  lemma {:induction false} ReplaceExactly(pieces: seq<string>, pattern: string, value: string)
    requires pieces != [] && pattern != "" && forall i :: 0 <= i < |pieces| ==> pattern[0] !in pieces[i]
    ensures Replace(With(pieces, pattern), pattern, value) == With(pieces, value)
  {
    if |pieces| == 1 {
      ReplaceSkips(pieces[0], "", pattern, value);
      assert pieces[0] + "" == pieces[0];
    } else {
      var tail := With(pieces[1..], pattern);
      ReplaceExactly(pieces[1..], pattern, value);
      ReplaceSkips(pieces[0], pattern + tail, pattern, value);
      assert (pattern + tail)[|pattern|..] == tail;
    }
  }

  /** Both placeholders are filled in; where there is no value they stay. */
  lemma TemplateExactly(pieces: seq<string>, version: string, tag: string)
    requires pieces != [] && forall i :: 0 <= i < |pieces| ==> '{' !in pieces[i]
    ensures Template(With(pieces, "{version}"), Some(version), None) == With(pieces, version)
    ensures Template(With(pieces, "{tag}"), None, Some(tag)) == With(pieces, tag)
    ensures Template(With(pieces, "{version}"), None, None) == With(pieces, "{version}")
  {
    ReplaceExactly(pieces, "{version}", version);
    ReplaceExactly(pieces, "{tag}", tag);
  }

  /** The exports looked for are the declared ones with the placeholders filled in, in order. */
  lemma ExportsFilled(r: Request, i: nat, pieces: seq<string>, others: seq<string>)
    requires i < |r.package.exports| && pieces != [] && others != []
    requires forall k :: 0 <= k < |pieces| ==> '{' !in pieces[k]
    requires forall k :: 0 <= k < |others| ==> '{' !in others[k]
    ensures |Exports(r)| == |r.package.exports| && Exports(r)[i].executable == r.package.exports[i].executable
    ensures var x, y := r.package.exports[i], Exports(r)[i];
      && (r.version.Some? && r.tag.None? && x.archivePath == With(pieces, "{version}") ==>
          y.archivePath == With(pieces, r.version.value))
      && (r.version.Some? && r.tag.None? && x.target == With(others, "{version}") ==>
          y.target == With(others, r.version.value))
      && (r.version.None? && r.tag.Some? && x.archivePath == With(pieces, "{tag}") ==>
          y.archivePath == With(pieces, r.tag.value))
      && (r.version.None? && r.tag.Some? && x.target == With(others, "{tag}") ==>
          y.target == With(others, r.tag.value))
  {
    ReplaceExactly(pieces, "{version}", if r.version.Some? then r.version.value else "");
    ReplaceExactly(others, "{version}", if r.version.Some? then r.version.value else "");
    ReplaceExactly(pieces, "{tag}", if r.tag.Some? then r.tag.value else "");
    ReplaceExactly(others, "{tag}", if r.tag.Some? then r.tag.value else "");
  }

  // ----- requests -----

  /** What each source needs, and where it says that the payload is. */
  ghost predicate Located(c: Context, kind: Kind, d: Dependency, package: Package, payload: Locator) {
    match d.source
    case GithubRelease =>
      && d.package == Some(package) && package.asset.Some? && c.release(kind, d).Some?
      && payload == Online(c.release(kind, d).value.url)
    case Url => d.package == Some(package) && package.url.Some? && payload == Online(package.url.value)
    case SkillList(_) => c.index(kind, d) == Some(package) && package.url.Some? && payload == Online(package.url.value)
    case Bundled =>
      && d.package == Some(package) && package.path.Some? && c.bundled(kind, d).Some?
      && payload == Bundle(c.bundled(kind, d).value)
  }

  /** A release fixes version and tag; otherwise the version is the declared one, and there is no tag. */
  ghost predicate Versioned(c: Context, kind: Kind, d: Dependency, r: Request) {
    if d.source.GithubRelease? && c.release(kind, d).Some? then
      var tag := c.release(kind, d).value.tag;
      r.version == Some(ReleaseVersion(d.version, tag)) && r.tag == Some(tag)
    else r.version == d.version && r.tag == None
  }

  /** The digest that is declared, if any, and the one that is reported for a release, if any, agree. */
  ghost predicate Insists(c: Context, kind: Kind, d: Dependency, package: Package, expected: Option<string>) {
    var release := if d.source.GithubRelease? then c.release(kind, d) else None;
    var reported := if release.Some? then release.value.digest else None;
    && (package.sha256.Some? ==> expected == Some(Lower(Trim(package.sha256.value))))
    && (reported.Some? ==> expected == reported)
    && (package.sha256.None? && reported.None? ==> expected == None)
  }

  /** Which request a declaration resolves to, and that it is refused when there is none like this. */
  lemma ResolvedExactly(c: Context, kind: Kind, d: Dependency, r: Request)
    ensures ResolvedFrom(c, kind, d, r) <==>
      && Located(c, kind, d, r.package, r.payload) && Versioned(c, kind, d, r)
      && Insists(c, kind, d, r.package, r.expected)
      && r.root == Base(c, kind, d) + [
           NormalizeComponent(c.sha, if r.version.Some? then r.version.value else "unversioned"),
           NormalizeComponent(c.sha, c.platform)]
  {
  }

  // ----- digests and cache files -----

  lemma HexExactly(s: string, n: nat)
    ensures LowerHex(s, n) <==> |s| == n && forall i :: 0 <= i < n ==> s[i] in "0123456789abcdef"
  {
    assert forall c: char :: c in "0123456789abcdef" <==> '0' <= c <= '9' || 'a' <= c <= 'f' by {
      var hex := "0123456789abcdef";
      assert |hex| == 16;
      forall c: char | '0' <= c <= '9' || 'a' <= c <= 'f'
        ensures c in hex
      {
        assert '0' <= c <= '9' ==> hex[c as int - 48] == c;
        assert 'a' <= c <= 'f' ==> hex[c as int - 87] == c;
      }
    }
  }

  /** The texts whose digests name the cache files of payloads and of skill lists. */
  lemma CacheNamesExactly(c: Context, d: Dependency, url: string)
    ensures CacheName(c, Tool, d, url) == c.sha("tool-" + (d.name + ("-" + c.platform))) + c.suffix(url)
    ensures CacheName(c, Lua, d, url) == c.sha("lua-" + (d.name + ("-" + c.platform))) + c.suffix(url)
    ensures CacheName(c, Ffi, d, url) == c.sha("ffi-" + (d.name + ("-" + c.platform))) + c.suffix(url)
    ensures IndexName(c, url) == c.sha("skilllist-" + c.encode(url)) + c.suffix(url)
  {
    assert "tool" + "-" + d.name + "-" + c.platform == "tool-" + (d.name + ("-" + c.platform));
    assert "lua" + "-" + d.name + "-" + c.platform == "lua-" + (d.name + ("-" + c.platform));
    assert "ffi" + "-" + d.name + "-" + c.platform == "ffi-" + (d.name + ("-" + c.platform));
  }

  /** These texts tell kinds and names apart on one platform. */
  lemma CacheKeysDiffer(k1: Kind, n1: string, k2: Kind, n2: string, platform: string)
    ensures KindText(k1) + "-" + n1 + "-" + platform == KindText(k2) + "-" + n2 + "-" + platform <==>
      k1 == k2 && n1 == n2
  {
    var a, b := KindText(k1) + "-" + n1 + "-" + platform, KindText(k2) + "-" + n2 + "-" + platform;
    assert a[0] == KindText(k1)[0] && b[0] == KindText(k2)[0];
    if a == b && k1 == k2 {
      var pre, post := KindText(k1) + "-", "-" + platform;
      assert a == pre + n1 + post && b == pre + n2 + post;
      assert |n1| == |n2|;
      assert (pre + n1 + post)[|pre|..|pre| + |n1|] == n1 && (pre + n2 + post)[|pre|..|pre| + |n1|] == n2;
    }
  }

  // ----- where the kinds live -----

  /** The root of each kind and scope in the configuration. */
  lemma KindsPlaced(c: Context, d: Dependency)
    ensures d.scope.Skill? ==>
      && Base(c, Tool, d) == c.cfg.tool + [c.skill, NormalizeComponent(c.sha, d.name)]
      && Base(c, Lua, d) == c.cfg.lua + [c.skill, NormalizeComponent(c.sha, d.name)]
      && Base(c, Ffi, d) == c.cfg.ffi + [c.skill, NormalizeComponent(c.sha, d.name)]
    ensures d.scope.Host? ==>
      && Base(c, Tool, d) == c.cfg.hostTool + [NormalizeComponent(c.sha, d.name)]
      && Base(c, Lua, d) == c.cfg.hostLua + [NormalizeComponent(c.sha, d.name)]
      && Base(c, Ffi, d) == c.cfg.hostFfi + [NormalizeComponent(c.sha, d.name)]
  {
  }

  /**
   * A version directory found on disk is searched where an install puts its files: that is the
   * root for a version exactly when the directory is named by the version's portable form.
   */
  lemma ScansExactly(c: Context, kind: Kind, d: Dependency, name: string, version: Option<string>)
    ensures VersionRoot(c, kind, d, name) == RootFor(c, kind, d, version) <==>
      name == NormalizeComponent(c.sha, if version.Some? then version.value else "unversioned")
  {
    var x, y, n := VersionRoot(c, kind, d, name), RootFor(c, kind, d, version), |Base(c, kind, d)|;
    assert x[n] == name;
    assert y[n] == NormalizeComponent(c.sha, if version.Some? then version.value else "unversioned");
    assert x == x[..n] + [x[n], x[n + 1]] && y == y[..n] + [y[n], y[n + 1]];
  }

  /** What an install changes outside the cache is below the root of its own kind. */
  lemma InstallPlaced(c: Context, d: Dependency, a: Nodes, b: Nodes)
    requires d.scope.Skill?
    ensures Within(a, b, c.cfg.cache, Base(c, Tool, d)) ==> Within(a, b, c.cfg.cache, c.cfg.tool)
    ensures Within(a, b, c.cfg.cache, Base(c, Lua, d)) ==> Within(a, b, c.cfg.cache, c.cfg.lua)
    ensures Within(a, b, c.cfg.cache, Base(c, Ffi, d)) ==> Within(a, b, c.cfg.cache, c.cfg.ffi)
  {
    KindsPlaced(c, d);
    if Within(a, b, c.cfg.cache, Base(c, Tool, d)) {
      WithinWiden(a, b, c.cfg.cache, c.cfg.tool, Base(c, Tool, d));
    }
    if Within(a, b, c.cfg.cache, Base(c, Lua, d)) {
      WithinWiden(a, b, c.cfg.cache, c.cfg.lua, Base(c, Lua, d));
    }
    if Within(a, b, c.cfg.cache, Base(c, Ffi, d)) {
      WithinWiden(a, b, c.cfg.cache, c.cfg.ffi, Base(c, Ffi, d));
    }
  }

  /** The install root of one declaration under the root of its kind. */
  function Declared(c: Context, root: Path, d: Dependency): Path {
    root + [c.skill, NormalizeComponent(c.sha, d.name),
            NormalizeComponent(c.sha, if d.version.Some? then d.version.value else "unversioned"),
            NormalizeComponent(c.sha, c.platform)]
  }

  ghost predicate DeclaredIn(c: Context, root: Path, deps: seq<Dependency>, p: Path) {
    exists i :: 0 <= i < |deps| && deps[i].scope.Skill? && deps[i].package.Some? && p == Declared(c, root, deps[i])
  }

  lemma {:induction false} UnionMember(items: seq<Item>, f: Item -> set<Path>, p: Path)
    ensures p in UnionOf(items, f) <==> exists i :: 0 <= i < |items| && p in f(items[i])
  {
    if items != [] {
      UnionMember(items[..|items| - 1], f, p);
    }
  }

  lemma RootIsDeclared(c: Context, kind: Kind, d: Dependency)
    requires d.scope.Skill?
    ensures RootFor(c, kind, d, d.version) == Declared(c, KindRoot(c.cfg, kind, Skill), d)
  {
  }

  lemma TaggedRoots(c: Context, kind: Kind, deps: seq<Dependency>, root: Path, p: Path)
    requires root == KindRoot(c.cfg, kind, Skill)
    ensures p in RootsOf(c, Tagged(kind, deps)) <==> DeclaredIn(c, root, deps, p)
  {
    var items := Tagged(kind, deps);
    UnionMember(items, Owner(c), p);
    forall i | 0 <= i < |deps|
      ensures p in Owner(c)(items[i]) <==>
        deps[i].scope.Skill? && deps[i].package.Some? && p == Declared(c, root, deps[i])
    {
      if deps[i].scope.Skill? {
        RootIsDeclared(c, kind, deps[i]);
      }
      assert items[i] == Item(kind, deps[i]);
    }
  }

  /** A manifest declares the install roots of its tools below the tool root, and so on for each kind. */
  lemma DeclaredExactly(c: Context, manifest: Manifest, p: Path)
    ensures p in DeclaredRoots(c, Some(manifest)) <==>
      || DeclaredIn(c, c.cfg.tool, manifest.tools, p)
      || DeclaredIn(c, c.cfg.lua, manifest.luas, p)
      || DeclaredIn(c, c.cfg.ffi, manifest.ffis, p)
    ensures DeclaredRoots(c, None) == {}
  {
    TaggedRoots(c, Tool, manifest.tools, c.cfg.tool, p);
    TaggedRoots(c, Lua, manifest.luas, c.cfg.lua, p);
    TaggedRoots(c, Ffi, manifest.ffis, c.cfg.ffi, p);
    UnionConcat(Tagged(Lua, manifest.luas), Tagged(Ffi, manifest.ffis), Owner(c));
    UnionConcat(Tagged(Tool, manifest.tools), Tagged(Lua, manifest.luas) + Tagged(Ffi, manifest.ffis), Owner(c));
  }
}
