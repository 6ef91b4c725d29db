/**
 * The string rules of dependency archives: how an entry name is matched against a declared
 * export, how a zip entry is looked up, and which manifest targets stay below the install root.
 */
module ArchiveNames {
  import opened Common
  import opened FileSystem

  // ----- separators and components -----

  /** Backslashes become slashes on every host. */
  function Portable(raw: string): string {
    seq(|raw|, i requires 0 <= i < |raw| => if raw[i] == '\\' then '/' else raw[i])
  }

  /** The pieces between slashes; there is always at least one. */
  function Split(s: string): (r: seq<string>)
    ensures |r| > 0
  {
    if s == "" then [""]
    else
      var rest := Split(s[1..]);
      if s[0] == '/' then [""] + rest else [[s[0]] + rest[0]] + rest[1..]
  }

  function Joined(parts: seq<string>): string {
    if parts == [] then "" else if |parts| == 1 then parts[0] else parts[0] + ("/" + Joined(parts[1..]))
  }

  function Kept(parts: seq<string>): (r: seq<string>) {
    if parts == [] then [] else if parts[0] == "" then Kept(parts[1..]) else [parts[0]] + Kept(parts[1..])
  }

  predicate SlashFree(parts: seq<string>) {
    forall i :: 0 <= i < |parts| ==> '/' !in parts[i]
  }

  lemma JoinedGrow(c: char, parts: seq<string>)
    requires parts != []
    ensures Joined([[c] + parts[0]] + parts[1..]) == [c] + Joined(parts)
  {
    var grown := [[c] + parts[0]] + parts[1..];
    if |parts| > 1 {
      assert grown[1..] == parts[1..];
      assert ([c] + parts[0]) + ("/" + Joined(parts[1..])) == [c] + (parts[0] + ("/" + Joined(parts[1..])));
    }
  }

  lemma {:induction false} SplitPieces(s: string)
    ensures SlashFree(Split(s))
    ensures Joined(Split(s)) == s
  {
    if s != "" {
      SplitPieces(s[1..]);
      var rest := Split(s[1..]);
      JoinedGrow(s[0], rest);
      if s[0] == '/' {
        assert ([""] + rest)[1..] == rest;
        assert "" + ("/" + Joined(rest)) == s;
      }
    }
  }

  lemma {:induction false} SplitHead(head: string, tail: string)
    requires '/' !in head
    ensures Split(head + ("/" + tail)) == [head] + Split(tail)
    ensures Split(head) == [head]
  {
    if head == "" {
      assert head + ("/" + tail) == "/" + tail;
      assert ("/" + tail)[1..] == tail;
    } else {
      SplitHead(head[1..], tail);
      assert (head + ("/" + tail))[1..] == head[1..] + ("/" + tail);
      assert [head[0]] + head[1..] == head;
      var rest := Split(head[1..] + ("/" + tail));
      assert rest[0] == head[1..] && rest[1..] == Split(tail);
    }
  }

  /** Joining and splitting are inverse on non-empty lists of slash-free pieces. */
  lemma {:induction false} JoinedSplits(parts: seq<string>)
    requires parts != [] && SlashFree(parts)
    ensures Split(Joined(parts)) == parts
  {
    if |parts| == 1 {
      SplitHead(parts[0], "");
    } else {
      JoinedSplits(parts[1..]);
      SplitHead(parts[0], Joined(parts[1..]));
    }
  }

  lemma {:induction false} KeptPieces(parts: seq<string>)
    requires SlashFree(parts)
    ensures SlashFree(Kept(parts))
    ensures forall i :: 0 <= i < |Kept(parts)| ==> Kept(parts)[i] != ""
  {
    if parts != [] {
      KeptPieces(parts[1..]);
    }
  }

  // ----- matching entries with exports -----

  function TrimStart(s: string): string {
    if s != "" && s[0] == '/' then TrimStart(s[1..]) else s
  }

  function TrimEnd(s: string): string {
    if s != "" && s[|s| - 1] == '/' then TrimEnd(s[..|s| - 1]) else s
  }

  /** The forward-slash form of a name without slashes at either end. */
  function Normalize(raw: string): string {
    TrimEnd(TrimStart(Portable(raw)))
  }

  predicate Bare(s: string) {
    '\\' !in s && (s == "" || (s[0] != '/' && s[|s| - 1] != '/'))
  }

  lemma {:induction false} TrimStartShape(s: string)
    ensures '\\' !in s ==> '\\' !in TrimStart(s)
    ensures TrimStart(s) == "" || TrimStart(s)[0] != '/'
  {
    if s != "" && s[0] == '/' {
      TrimStartShape(s[1..]);
    }
  }

  lemma {:induction false} TrimEndShape(s: string)
    ensures '\\' !in s ==> '\\' !in TrimEnd(s)
    ensures TrimEnd(s) == "" || (TrimEnd(s)[|TrimEnd(s)| - 1] != '/' && s != "" && TrimEnd(s)[0] == s[0])
  {
    if s != "" && s[|s| - 1] == '/' {
      TrimEndShape(s[..|s| - 1]);
    }
  }

  /** Normal forms are bare, and bare names are their own normal form: tar names are normalized twice. */
  lemma NormalForm(raw: string)
    ensures Bare(Normalize(raw))
    ensures Bare(raw) <==> Normalize(raw) == raw
  {
    var p := Portable(raw);
    assert '\\' !in p;
    TrimStartShape(p);
    TrimEndShape(TrimStart(p));
    if '\\' !in raw {
      assert p == raw;
    }
  }

  /** Everything below the first directory, empty components skipped; nothing if there is none. */
  function Strip(name: string): Option<string> {
    var parts := Kept(Split(name));
    if |parts| < 2 then None else Some(Joined(parts[1..]))
  }

  predicate Matches(entry: string, wanted: string) {
    var e, x := Normalize(entry), Normalize(wanted);
    e == x || Strip(e) == Some(x)
  }

  /**
   * What matching means on components. The exact comparison sees repeated slashes and the
   * stripped one does not, so an export with an empty component can match only exactly.
   */
  lemma MatchesByComponents(entry: string, wanted: string)
    ensures Matches(entry, wanted) <==>
      var e, x := Split(Normalize(entry)), Split(Normalize(wanted));
      e == x || exists top :: Kept(e) == [top] + x
  {
    var e, x := Normalize(entry), Normalize(wanted);
    SplitPieces(e);
    SplitPieces(x);
    KeptPieces(Split(e));
    var parts := Kept(Split(e));
    if |parts| >= 2 {
      JoinedSplits(parts[1..]);
      assert parts == [parts[0]] + parts[1..];
      assert forall top, rest :: parts == [top] + rest ==> rest == parts[1..];
    }
  }

  /** The first position whose element satisfies `p`. */
  function Position<T>(s: seq<T>, p: T -> bool): (r: Option<nat>)
    ensures r.Some? ==> r.value < |s| && p(s[r.value]) && forall i :: 0 <= i < r.value ==> !p(s[i])
    ensures r.None? ==> forall i :: 0 <= i < |s| ==> !p(s[i])
  {
    if s == [] then None
    else if p(s[0]) then Some(0)
    else
      var rest := Position(s[1..], p);
      assert forall i :: 1 <= i < |s| ==> s[i] == s[1..][i - 1];
      if rest.None? then None else Some(rest.value + 1)
  }

  predicate ExactName(name: Option<string>, wanted: string) {
    name.Some? && Normalize(name.value) == Normalize(wanted)
  }

  predicate MatchesName(name: Option<string>, wanted: string) {
    name.Some? && Matches(name.value, wanted)
  }

  /** Zip lookup by name; names that cannot be decoded are `None`. */
  function ZipIndex(names: seq<Option<string>>, wanted: string): (r: Option<nat>) {
    var x := Normalize(wanted);
    var exact := Position(names, (n: Option<string>) => n.Some? && Normalize(n.value) == x);
    if exact.Some? then exact
    else Position(names, (n: Option<string>) => n.Some? && Strip(Normalize(n.value)) == Some(x))
  }

  /**
   * Zip lookup succeeds exactly when some decodable entry matches. The entry it picks is the
   * first exact one if there is any, and otherwise the first one that matches at all.
   */
  lemma ZipLookup(names: seq<Option<string>>, wanted: string)
    ensures var r := ZipIndex(names, wanted);
      && (r.Some? <==> exists i :: 0 <= i < |names| && MatchesName(names[i], wanted))
      && (r.Some? ==>
          && r.value < |names|
          && MatchesName(names[r.value], wanted)
          && (ExactName(names[r.value], wanted) || forall i :: 0 <= i < |names| ==> !ExactName(names[i], wanted))
          && (forall i :: 0 <= i < r.value ==>
                if ExactName(names[r.value], wanted) then !ExactName(names[i], wanted)
                else !MatchesName(names[i], wanted)))
  {
    var x := Normalize(wanted);
    var exact := Position(names, (n: Option<string>) => n.Some? && Normalize(n.value) == x);
    var loose := Position(names, (n: Option<string>) => n.Some? && Strip(Normalize(n.value)) == Some(x));
    assert forall n: Option<string> :: MatchesName(n, wanted) <==>
      ExactName(n, wanted) || (n.Some? && Strip(Normalize(n.value)) == Some(x));
  }

  // ----- targets below the install root -----

  predicate Letter(c: char) {
    'a' <= c <= 'z' || 'A' <= c <= 'Z'
  }

  predicate DrivePrefixed(s: string) {
    |s| >= 2 && Letter(s[0]) && s[1] == ':'
  }

  /** A component that names an entry of the directory it is joined to. */
  predicate Ordinary(component: string) {
    component != "" && component != "." && component != ".."
  }

  predicate Relative(target: string) {
    && !DrivePrefixed(Portable(target))
    && forall c :: c in Split(Portable(target)) ==> Ordinary(c)
  }

  /** The destination of one export: the root extended by the target's components, or a refusal. */
  function TargetOf(root: Path, target: string): Option<Path> {
    if Relative(target) then Some(root + Split(Portable(target))) else None
  }

  method ResolveTarget(root: Path, target: string) returns (r: Option<Path>)
    ensures r == TargetOf(root, target)
  {
    var portable := Portable(target);
    var parts := Split(portable);
    if portable == "" || portable[0] == '/' || DrivePrefixed(portable) {
      assert parts[0] == "" || DrivePrefixed(portable);
      assert parts[0] in parts;
      return None;
    }
    var resolved := root;
    for i := 0 to |parts|
      invariant resolved == root + parts[..i]
      invariant forall c :: c in parts[..i] ==> Ordinary(c)
    {
      if parts[i] == "" || parts[i] == "." || parts[i] == ".." {
        assert parts[i] in parts && !Ordinary(parts[i]);
        return None;
      }
      assert parts[..i + 1] == parts[..i] + [parts[i]];
      resolved := resolved + [parts[i]];
    }
    assert parts[..|parts|] == parts;
    r := Some(resolved);
  }

  /**
   * A resolved target lies strictly below the root, every added component is an ordinary
   * slash-free name, and two targets resolve to one path exactly when they differ in separator
   * style only.
   */
  lemma TargetBelowRoot(root: Path, a: string, b: string)
    ensures TargetOf(root, a).Some? ==>
      var p := TargetOf(root, a).value;
      root < p && SlashFree(p[|root|..]) && forall c :: c in p[|root|..] ==> Ordinary(c)
    ensures TargetOf(root, a).Some? && TargetOf(root, b).Some? ==>
      (TargetOf(root, a) == TargetOf(root, b) <==> Portable(a) == Portable(b))
  {
    var x, y := Split(Portable(a)), Split(Portable(b));
    SplitPieces(Portable(a));
    SplitPieces(Portable(b));
    assert (root + x)[|root|..] == x && (root + y)[|root|..] == y;
  }

  /** Conversely, every path below the root made of ordinary names is some target's destination. */
  lemma EveryPathIsATarget(root: Path, parts: seq<string>)
    requires parts != [] && SlashFree(parts)
    requires forall c :: c in parts ==> Ordinary(c) && '\\' !in c
    requires !DrivePrefixed(parts[0])
    ensures TargetOf(root, Joined(parts)) == Some(root + parts)
  {
    JoinedSplits(parts);
    NoBackslash(parts);
    assert Portable(Joined(parts)) == Joined(parts);
    DriveIsInHead(parts);
  }

  lemma {:induction false} NoBackslash(parts: seq<string>)
    requires forall c :: c in parts ==> '\\' !in c
    ensures '\\' !in Joined(parts)
  {
    if |parts| == 1 {
      assert parts[0] in parts;
    } else if |parts| > 1 {
      assert parts[0] in parts;
      NoBackslash(parts[1..]);
    }
  }

  lemma DriveIsInHead(parts: seq<string>)
    requires parts != [] && SlashFree(parts) && parts[0] != ""
    ensures DrivePrefixed(Joined(parts)) ==> DrivePrefixed(parts[0])
  {
    if |parts| > 1 {
      var s := parts[0] + ("/" + Joined(parts[1..]));
      assert s[0] == parts[0][0];
      if |parts[0]| == 1 {
        assert s[1] == '/';
      } else {
        assert s[1] == parts[0][1];
      }
    }
  }
}
