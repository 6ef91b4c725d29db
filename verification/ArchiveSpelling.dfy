/**
 * The string rules of archives in terms of the characters themselves: either slash separates
 * components, slashes at the ends do not matter for matching, repeated slashes do not matter below
 * a top-level directory, and which declared targets are refused.
 */
module ArchiveSpelling {
  import opened Common
  import opened FileSystem
  import opened ArchiveNames

  predicate IsSeparator(c: char) {
    c == '/' || c == '\\'
  }

  predicate AllSeparators(s: string) {
    forall i :: 0 <= i < |s| ==> IsSeparator(s[i])
  }

  /** `t` is `s` with every backslash turned into a slash. */
  predicate Respelled(s: string, t: string) {
    |s| == |t| && forall i :: 0 <= i < |s| ==> t[i] == if s[i] == '\\' then '/' else s[i]
  }

  // ----- either slash -----

  /** The spelling of separators matters nowhere: not for targets, not for matching, not for lookup. */
  lemma SeparatorStyle(root: Path, s: string, t: string, other: string, names: seq<Option<string>>)
    requires Respelled(s, t)
    ensures TargetOf(root, s) == TargetOf(root, t)
    ensures Matches(s, other) == Matches(t, other) && Matches(other, s) == Matches(other, t)
    ensures ZipIndex(names, s) == ZipIndex(names, t)
  {
    assert Portable(s) == t;
    assert Portable(t) == t;
  }

  lemma {:induction false} TrimStartPadding(a: string, s: string)
    requires forall i :: 0 <= i < |a| ==> a[i] == '/'
    ensures TrimStart(a + s) == TrimStart(s)
  {
    if a == "" {
      assert a + s == s;
    } else {
      assert (a + s)[1..] == a[1..] + s;
      TrimStartPadding(a[1..], s);
    }
  }

  lemma {:induction false} TrimEndPadding(s: string, b: string)
    requires forall i :: 0 <= i < |b| ==> b[i] == '/'
    ensures TrimEnd(s + b) == TrimEnd(s)
  {
    if b == "" {
      assert s + b == s;
    } else {
      assert (s + b)[..|s + b| - 1] == s + b[..|b| - 1];
      TrimEndPadding(s, b[..|b| - 1]);
    }
  }

  /** Only slashes, or something whose first character stays the first under padding at the end. */
  lemma {:induction false} TrimBoth(s: string, b: string)
    requires forall i :: 0 <= i < |b| ==> b[i] == '/'
    ensures TrimEnd(TrimStart(s + b)) == TrimEnd(TrimStart(s))
  {
    if s == "" {
      assert s + b == b + "";
      TrimStartPadding(b, "");
    } else if s[0] == '/' {
      assert (s + b)[1..] == s[1..] + b;
      TrimBoth(s[1..], b);
    } else {
      TrimEndPadding(s, b);
    }
  }

  /** Separators of either kind around a name do not change what it matches. */
  lemma PaddingIgnored(a: string, s: string, b: string)
    requires AllSeparators(a) && AllSeparators(b)
    ensures Normalize(a + s + b) == Normalize(s)
  {
    assert Portable(a + s + b) == Portable(a) + (Portable(s) + Portable(b));
    TrimStartPadding(Portable(a), Portable(s) + Portable(b));
    TrimBoth(Portable(s), Portable(b));
  }

  // ----- components -----

  /** The parts with a separator of either kind between neighbours. */
  function JoinedBy(parts: seq<string>, seps: seq<char>): string
    requires |parts| == |seps| + 1
  {
    if seps == [] then parts[0] else parts[0] + ([seps[0]] + JoinedBy(parts[1..], seps[1..]))
  }

  predicate SeparatorFree(parts: seq<string>) {
    forall i, k :: 0 <= i < |parts| && 0 <= k < |parts[i]| ==> !IsSeparator(parts[i][k])
  }

  lemma {:induction false} JoinedByRespelled(parts: seq<string>, seps: seq<char>)
    requires |parts| == |seps| + 1 && SeparatorFree(parts) && AllSeparators(seps)
    ensures Respelled(JoinedBy(parts, seps), Joined(parts))
    ensures Portable(JoinedBy(parts, seps)) == Joined(parts)
  {
    if seps != [] {
      JoinedByRespelled(parts[1..], seps[1..]);
      var s, t := JoinedBy(parts, seps), Joined(parts);
      assert t == parts[0] + ("/" + Joined(parts[1..]));
      forall i | 0 <= i < |s|
        ensures t[i] == if s[i] == '\\' then '/' else s[i]
      {
        if i < |parts[0]| {
          assert !IsSeparator(parts[0][i]);
        } else if i == |parts[0]| {
          assert s[i] == seps[0];
        } else {
          var k := i - |parts[0]| - 1;
          assert s[i] == JoinedBy(parts[1..], seps[1..])[k] && t[i] == Joined(parts[1..])[k];
        }
      }
    } else {
      assert Joined(parts) == parts[0];
    }
  }

  /** The name of an entry of the directory it is joined to. */
  predicate EntryName(c: string) {
    c !in {"", ".", ".."}
  }

  predicate DriveLetter(s: string) {
    |s| > 1 && s[1] == ':' && ('a' <= s[0] <= 'z' || 'A' <= s[0] <= 'Z')
  }

  /** `target` spells the components `parts`. */
  ghost predicate SpellsParts(target: string, parts: seq<string>) {
    exists seps: seq<char> :: |parts| == |seps| + 1 && AllSeparators(seps) && target == JoinedBy(parts, seps)
  }

  /** Every text spells exactly one list of separator-free parts. */
  lemma {:induction false} PartsOf(s: string) returns (parts: seq<string>, seps: seq<char>)
    ensures |parts| == |seps| + 1 && SeparatorFree(parts) && AllSeparators(seps) && s == JoinedBy(parts, seps)
  {
    if s == "" {
      parts, seps := [""], [];
    } else {
      parts, seps := PartsOf(s[1..]);
      if IsSeparator(s[0]) {
        parts, seps := [""] + parts, [s[0]] + seps;
        assert parts[1..] == parts[1..] && seps[1..] == seps[1..];
        assert "" + ([s[0]] + s[1..]) == s;
      } else {
        HeadGrows(s[0], parts, seps);
        parts := [[s[0]] + parts[0]] + parts[1..];
        assert [s[0]] + s[1..] == s;
      }
    }
  }

  lemma HeadGrows(c: char, parts: seq<string>, seps: seq<char>)
    requires |parts| == |seps| + 1 && SeparatorFree(parts) && !IsSeparator(c)
    ensures SeparatorFree([[c] + parts[0]] + parts[1..])
    ensures JoinedBy([[c] + parts[0]] + parts[1..], seps) == [c] + JoinedBy(parts, seps)
  {
    var grown := [[c] + parts[0]] + parts[1..];
    assert forall k :: 0 <= k < |grown[0]| ==> grown[0][k] == if k == 0 then c else parts[0][k - 1];
    assert forall i :: 1 <= i < |grown| ==> grown[i] == parts[i];
    HeadJoined([c], parts[0], parts[1..], seps);
    assert [parts[0]] + parts[1..] == parts;
  }

  lemma HeadJoined(c: string, head: string, rest: seq<string>, seps: seq<char>)
    requires |rest| == |seps|
    ensures JoinedBy([c + head] + rest, seps) == c + JoinedBy([head] + rest, seps)
  {
    assert ([c + head] + rest)[1..] == rest && ([head] + rest)[1..] == rest;
    if seps != [] {
      var tail := [seps[0]] + JoinedBy(rest, seps[1..]);
      assert (c + head) + tail == c + (head + tail);
    }
  }

  /**
   * Which target goes where, from the characters alone: a declared target leads to the root
   * extended by `parts` exactly when it spells these parts with separators of either kind, all of
   * them are names of entries and it does not begin like a drive.
   */
  lemma TargetExactly(root: Path, target: string, parts: seq<string>)
    ensures TargetOf(root, target) == Some(root + parts) <==>
      && SeparatorFree(parts) && SpellsParts(target, parts)
      && (forall i :: 0 <= i < |parts| ==> EntryName(parts[i])) && !DriveLetter(target)
  {
    var own, seps := PartsOf(target);
    JoinedByRespelled(own, seps);
    SplitSpelled(target, own, seps);
    assert TargetOf(root, target).Some? ==> TargetOf(root, target).value == root + own;
    assert root + parts == root + own ==> parts == own by {
      assert (root + parts)[|root|..] == parts && (root + own)[|root|..] == own;
    }
    DriveSpelled(target);
    assert SpellsParts(target, own);
    if SeparatorFree(parts) && SpellsParts(target, parts) {
      var other: seq<char> :| |parts| == |other| + 1 && AllSeparators(other) && target == JoinedBy(parts, other);
      SplitSpelled(target, parts, other);
    }
    assert forall i :: 0 <= i < |own| ==> own[i] in own && (Ordinary(own[i]) <==> EntryName(own[i]));
  }

  lemma SplitSpelled(target: string, parts: seq<string>, seps: seq<char>)
    requires |parts| == |seps| + 1 && SeparatorFree(parts) && AllSeparators(seps) && target == JoinedBy(parts, seps)
    ensures Split(Portable(target)) == parts
  {
    JoinedByRespelled(parts, seps);
    forall i | 0 <= i < |parts|
      ensures '/' !in parts[i]
    {
    }
    JoinedSplits(parts);
  }

  lemma DriveSpelled(target: string)
    ensures DrivePrefixed(Portable(target)) <==> DriveLetter(target)
  {
    if |target| > 1 {
      assert Portable(target)[0] == (if target[0] == '\\' then '/' else target[0]);
    }
  }

  // ----- matching below a top-level directory -----

  /** The pieces, each but the first after a run of slashes. */
  function Spread(pieces: seq<string>, runs: seq<string>): string
    requires |pieces| == |runs| + 1
  {
    if runs == [] then pieces[0] else pieces[0] + (runs[0] + Spread(pieces[1..], runs[1..]))
  }

  predicate Run(s: string) {
    s != "" && forall i :: 0 <= i < |s| ==> s[i] == '/'
  }

  predicate Pieces(pieces: seq<string>) {
    forall i :: 0 <= i < |pieces| ==> pieces[i] != "" && '/' !in pieces[i] && '\\' !in pieces[i]
  }

  lemma {:induction false} RunSplits(run: string, tail: string)
    requires forall i :: 0 <= i < |run| ==> run[i] == '/'
    ensures Kept(Split(run + tail)) == Kept(Split(tail))
  {
    if run == "" {
      assert run + tail == tail;
    } else {
      assert (run + tail)[1..] == run[1..] + tail;
      RunSplits(run[1..], tail);
      assert ([""] + Split(run[1..] + tail))[1..] == Split(run[1..] + tail);
    }
  }

  /** The non-empty components of a name are its pieces, however many slashes are between them. */
  lemma {:induction false} SpreadKept(pieces: seq<string>, runs: seq<string>)
    requires |pieces| == |runs| + 1 && Pieces(pieces) && forall i :: 0 <= i < |runs| ==> Run(runs[i])
    ensures Kept(Split(Spread(pieces, runs))) == pieces
  {
    if runs == [] {
      SplitHead(pieces[0], "");
      assert Kept([pieces[0]]) == [pieces[0]] + Kept([]);
    } else {
      var tail := Spread(pieces[1..], runs[1..]);
      SpreadKept(pieces[1..], runs[1..]);
      var rest := runs[0][1..] + tail;
      assert runs[0] + tail == "/" + rest;
      SplitHead(pieces[0], rest);
      RunSplits(runs[0][1..], tail);
      assert ([pieces[0]] + Split(rest))[1..] == Split(rest);
      assert pieces == [pieces[0]] + pieces[1..];
    }
  }

  /** A name of pieces starts and ends with a character of a piece. */
  lemma {:induction false} SpreadBare(pieces: seq<string>, runs: seq<string>)
    requires |pieces| == |runs| + 1 && Pieces(pieces) && forall i :: 0 <= i < |runs| ==> Run(runs[i])
    ensures Bare(Spread(pieces, runs)) && Spread(pieces, runs) != ""
  {
    if runs != [] {
      SpreadBare(pieces[1..], runs[1..]);
      var tail := Spread(pieces[1..], runs[1..]);
      var s := pieces[0] + (runs[0] + tail);
      assert s[0] == pieces[0][0] && s[|s| - 1] == tail[|tail| - 1];
      assert '\\' !in runs[0];
    }
  }

  /**
   * An entry with the pieces top, then `below`, matches the declared path that joins `below` by
   * single slashes, whatever the runs of slashes in the entry; and in no other way does an entry
   * match a different declared path.
   */
  lemma MatchesBelowTop(pieces: seq<string>, runs: seq<string>, wanted: string)
    requires |pieces| == |runs| + 1 && Pieces(pieces) && forall i :: 0 <= i < |runs| ==> Run(runs[i])
    requires Bare(wanted)
    ensures Matches(Spread(pieces, runs), wanted) <==>
      || wanted == Spread(pieces, runs)
      || (|pieces| > 1 && wanted == JoinedBy(pieces[1..], seq(|pieces| - 2, _ => '/')))
  {
    var e := Spread(pieces, runs);
    SpreadBare(pieces, runs);
    NormalForm(e);
    NormalForm(wanted);
    SpreadKept(pieces, runs);
    if |pieces| > 1 {
      JoinedByPlain(pieces[1..]);
    }
  }

  /** `s` is a run of slashes, or none, and then pieces. */
  predicate Decomposed(s: string, lead: string, pieces: seq<string>, runs: seq<string>) {
    && |pieces| == |runs| + 1 && Pieces(pieces) && (forall i :: 0 <= i < |runs| ==> Run(runs[i]))
    && (lead == "" || Run(lead)) && s == lead + Spread(pieces, runs)
  }

  /** Every name that does not end in a slash is such a run and pieces. */
  lemma {:induction false} PiecesOf(s: string) returns (lead: string, pieces: seq<string>, runs: seq<string>)
    requires s != "" && s[|s| - 1] != '/' && '\\' !in s
    ensures Decomposed(s, lead, pieces, runs)
  {
    if |s| == 1 {
      lead, pieces, runs := "", [s], [];
    } else {
      lead, pieces, runs := PiecesOf(s[1..]);
      assert s == [s[0]] + s[1..];
      if s[0] == '/' {
        lead := "/" + lead;
      } else if lead == "" {
        PieceGrows(s[0], pieces, runs);
        pieces := [[s[0]] + pieces[0]] + pieces[1..];
      } else {
        PieceStarts(s, lead, pieces, runs);
        lead, pieces, runs := "", [[s[0]]] + pieces, [lead] + runs;
      }
    }
  }

  lemma PieceStarts(s: string, lead: string, pieces: seq<string>, runs: seq<string>)
    requires s != "" && !IsSeparator(s[0]) && lead != "" && Decomposed(s[1..], lead, pieces, runs)
    ensures Decomposed(s, "", [[s[0]]] + pieces, [lead] + runs)
  {
    var all, gaps := [[s[0]]] + pieces, [lead] + runs;
    assert all[1..] == pieces && gaps[1..] == runs;
    assert s == [s[0]] + s[1..];
    assert forall i :: 1 <= i < |all| ==> all[i] == pieces[i - 1];
    assert forall i :: 1 <= i < |gaps| ==> gaps[i] == runs[i - 1];
  }

  lemma PieceGrows(c: char, pieces: seq<string>, runs: seq<string>)
    requires |pieces| == |runs| + 1 && Pieces(pieces) && !IsSeparator(c)
    ensures Pieces([[c] + pieces[0]] + pieces[1..])
    ensures Spread([[c] + pieces[0]] + pieces[1..], runs) == [c] + Spread(pieces, runs)
  {
    var grown := [[c] + pieces[0]] + pieces[1..];
    assert forall i :: 1 <= i < |grown| ==> grown[i] == pieces[i];
    HeadSpread([c], pieces[0], pieces[1..], runs);
    assert [pieces[0]] + pieces[1..] == pieces;
  }

  lemma HeadSpread(c: string, head: string, rest: seq<string>, runs: seq<string>)
    requires |rest| == |runs|
    ensures Spread([c + head] + rest, runs) == c + Spread([head] + rest, runs)
  {
    assert ([c + head] + rest)[1..] == rest && ([head] + rest)[1..] == rest;
    if runs != [] {
      var tail := runs[0] + Spread(rest, runs[1..]);
      assert (c + head) + tail == c + (head + tail);
    }
  }

  lemma {:induction false} JoinedByPlain(parts: seq<string>)
    requires parts != []
    ensures JoinedBy(parts, seq(|parts| - 1, _ => '/')) == Joined(parts)
  {
    if |parts| > 1 {
      JoinedByPlain(parts[1..]);
      assert seq(|parts| - 1, _ => '/')[1..] == seq(|parts| - 2, _ => '/');
    }
  }
}
