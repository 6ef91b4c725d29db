/**
 * The release-series rule for the embedded contract: a patch release carries, byte for byte, the
 * contract of the newest earlier release of its series. Versions are read with a digit class that
 * may hold more than the ASCII digits, while the series and the predecessor's tag are written
 * with ASCII digits only; whether a history fixes the contract of each series turns on that.
 */
module ContractSeries {
  import opened Common

  // ----- decimal numbers -----

  ghost predicate Extends(digit: char -> Option<nat>) {
    forall c {:trigger digit(c)} ::
      && (digit(c).Some? ==> digit(c).value < 10)
      && (c < '\U{80}' ==> digit(c) == if IsDigitChar(c) then Some(c as nat - '0' as nat) else None)
  }

  /** A decimal digit class with the value of each digit; on ASCII it is the usual one. */
  type Digits = f: char -> Option<nat> | Extends(f)
    witness (c: char) => if IsDigitChar(c) then Some(c as nat - '0' as nat) else None

  predicate AllDigits(digit: Digits, s: string) {
    forall i :: 0 <= i < |s| ==> digit(s[i]).Some?
  }

  /** "0", or an ASCII digit that is not zero followed by any digits. */
  predicate Canonical(digit: Digits, s: string) {
    s == "0" || (s != "" && '1' <= s[0] <= '9' && AllDigits(digit, s))
  }

  function Value(digit: Digits, s: string): nat
    requires AllDigits(digit, s)
  {
    if s == "" then 0 else Value(digit, s[..|s| - 1]) * 10 + digit(s[|s| - 1]).value
  }

  function ParseDecimal(digit: Digits, s: string): Option<nat> {
    if Canonical(digit, s) then
      assert AllDigits(digit, s);
      Some(Value(digit, s))
    else None
  }

  predicate Ascii(s: string) {
    forall i :: 0 <= i < |s| ==> s[i] < '\U{80}'
  }

  lemma {:induction false} DecimalValue(digit: Digits, n: nat)
    ensures AllDigits(digit, Decimal(n)) && Value(digit, Decimal(n)) == n
  {
    if n >= 10 {
      DecimalValue(digit, n / 10);
      assert Decimal(n)[..|Decimal(n)| - 1] == Decimal(n / 10);
    } else {
      assert Decimal(n)[..0] == "";
    }
  }

  lemma DecimalParses(digit: Digits, n: nat)
    ensures ParseDecimal(digit, Decimal(n)) == Some(n)
  {
    DecimalValue(digit, n);
    assert IsDigitChar(Decimal(n)[0]);
    if n == 0 {
      assert Decimal(0) == "0";
    }
  }

  lemma {:induction false} Positive(digit: Digits, s: string)
    requires s != "" && '1' <= s[0] <= '9' && AllDigits(digit, s)
    ensures Value(digit, s) > 0
  {
    if |s| > 1 {
      Positive(digit, s[..|s| - 1]);
    }
  }

  lemma {:induction false} AsciiIsDecimal(digit: Digits, s: string)
    requires s != "" && '1' <= s[0] <= '9' && AllDigits(digit, s) && Ascii(s)
    ensures Decimal(Value(digit, s)) == s
  {
    var init, last := s[..|s| - 1], s[|s| - 1];
    var d := digit(last).value;
    assert s == init + [last] && DigitOf(d) == last;
    if init == "" {
      assert Value(digit, s) == d;
    } else {
      AsciiIsDecimal(digit, init);
      Positive(digit, init);
      assert Value(digit, s) / 10 == Value(digit, init) && Value(digit, s) % 10 == d;
    }
  }

  /** Among the spellings of a number, the ASCII one is what `str` writes. */
  lemma DecimalSpelling(digit: Digits, s: string, n: nat)
    requires ParseDecimal(digit, s) == Some(n)
    ensures s == Decimal(n) <==> Ascii(s)
  {
    if Ascii(s) {
      if s == "0" {
        assert s[..0] == "";
        assert Value(digit, s) == 0;
      } else {
        AsciiIsDecimal(digit, s);
      }
    }
  }

  // ----- versions and tags -----

  datatype Version = Version(major: nat, minor: nat, patch: nat)

  function Series(v: Version): string {
    Decimal(v.major) + ("." + Decimal(v.minor))
  }

  function Render(v: Version): string {
    Decimal(v.major) + ("." + (Decimal(v.minor) + ("." + Decimal(v.patch))))
  }

  function Tag(v: Version): string {
    "v" + Render(v)
  }

  /** The position of the first dot, or the length. */
  function Dot(s: string): (i: nat)
    ensures i <= |s| && (i < |s| ==> s[i] == '.') && forall k :: 0 <= k < i ==> s[k] != '.'
  {
    if s == "" || s[0] == '.' then 0 else 1 + Dot(s[1..])
  }

  /** Before and after the first dot. */
  function Cut(s: string): (r: Option<(string, string)>) {
    var i := Dot(s);
    if i == |s| then None else Some((s[..i], s[i + 1..]))
  }

  function Combine(a: Option<nat>, b: Option<nat>, c: Option<nat>): Option<Version> {
    if a.Some? && b.Some? && c.Some? then Some(Version(a.value, b.value, c.value)) else None
  }

  function ParseTail(digit: Digits, major: Option<nat>, s: string): Option<Version> {
    var r := Cut(s);
    if r.None? then None else Combine(major, ParseDecimal(digit, r.value.0), ParseDecimal(digit, r.value.1))
  }

  function ParseVersion(digit: Digits, s: string): Option<Version> {
    var r := Cut(s);
    if r.None? then None else ParseTail(digit, ParseDecimal(digit, r.value.0), r.value.1)
  }

  predicate NoDot(s: string) {
    forall i :: 0 <= i < |s| ==> s[i] != '.'
  }

  lemma CutAfter(head: string, tail: string)
    requires NoDot(head)
    ensures Cut(head + ("." + tail)) == Some((head, tail))
  {
    var s := head + ("." + tail);
    assert s[|head|] == '.';
    assert forall i :: 0 <= i < |head| ==> s[i] == head[i];
    assert s[..|head|] == head && s[|head| + 1..] == tail;
  }

  lemma CutWhole(s: string)
    ensures Cut(s).Some? ==> s == Cut(s).value.0 + ("." + Cut(s).value.1)
  {
    if Cut(s).Some? {
      assert s == s[..Dot(s)] + ("." + s[Dot(s) + 1..]);
    }
  }

  /** Three parts joined by dots are read part by part. */
  lemma JoinedParses(digit: Digits, a: string, b: string, c: string)
    requires NoDot(a) && NoDot(b)
    ensures ParseVersion(digit, a + ("." + (b + ("." + c)))) ==
      Combine(ParseDecimal(digit, a), ParseDecimal(digit, b), ParseDecimal(digit, c))
  {
    CutAfter(a, b + ("." + c));
    CutAfter(b, c);
  }

  lemma RenderedParses(digit: Digits, v: Version)
    ensures ParseVersion(digit, Render(v)) == Some(v)
  {
    JoinedParses(digit, Decimal(v.major), Decimal(v.minor), Decimal(v.patch));
    DecimalParses(digit, v.major);
    DecimalParses(digit, v.minor);
    DecimalParses(digit, v.patch);
  }

  lemma AsciiJoined(a: string, b: string)
    ensures Ascii(a + ("." + b)) <==> Ascii(a) && Ascii(b)
  {
    var s := a + ("." + b);
    assert forall i :: 0 <= i < |a| ==> s[i] == a[i];
    assert s[|a|] == '.';
    assert forall i :: 0 <= i < |b| ==> s[|a| + 1 + i] == b[i];
  }

  lemma AsciiSpelled(digit: Digits, s: string, v: Version)
    requires ParseVersion(digit, s) == Some(v) && Ascii(s)
    ensures s == Render(v)
  {
    var (a, rest) := Cut(s).value;
    var (b, c) := Cut(rest).value;
    CutWhole(s);
    CutWhole(rest);
    AsciiJoined(a, rest);
    AsciiJoined(b, c);
    DecimalSpelling(digit, a, v.major);
    DecimalSpelling(digit, b, v.minor);
    DecimalSpelling(digit, c, v.patch);
  }

  lemma RenderAscii(v: Version)
    ensures Ascii(Render(v))
  {
    AsciiJoined(Decimal(v.minor), Decimal(v.patch));
    AsciiJoined(Decimal(v.major), Decimal(v.minor) + ("." + Decimal(v.patch)));
  }

  /** Rendered versions parse, and a version string that parses is the rendered one exactly when it is ASCII. */
  lemma VersionExact(digit: Digits, s: string, v: Version)
    ensures s == Render(v) <==> ParseVersion(digit, s) == Some(v) && Ascii(s)
  {
    RenderedParses(digit, v);
    RenderAscii(v);
    if ParseVersion(digit, s) == Some(v) && Ascii(s) {
      AsciiSpelled(digit, s, v);
    }
  }

  /** Two versions declare the same series exactly when they agree on both leading numbers. */
  lemma SeriesExact(v: Version, w: Version)
    ensures Series(v) == Series(w) <==> SameSeries(v, w)
  {
    CutAfter(Decimal(v.major), Decimal(v.minor));
    CutAfter(Decimal(w.major), Decimal(w.minor));
    DecimalDistinct(v.major, w.major);
    DecimalDistinct(v.minor, w.minor);
  }

  lemma DecimalDistinct(m: nat, n: nat)
    ensures Decimal(m) == Decimal(n) <==> m == n
  {
    var plain: Digits := (c: char) => if IsDigitChar(c) then Some(c as nat - '0' as nat) else None;
    DecimalParses(plain, m);
    DecimalParses(plain, n);
  }

  predicate SameSeries(v: Version, w: Version) {
    v.major == w.major && v.minor == w.minor
  }

  /** The pattern for tags of one series: an ASCII prefix and a patch number in any digits. */
  function PatchOf(digit: Digits, v: Version, tag: string): Option<nat> {
    var prefix := "v" + (Series(v) + ".");
    if prefix <= tag then ParseDecimal(digit, tag[|prefix|..]) else None
  }

  lemma PatchOfTag(digit: Digits, v: Version, n: nat)
    ensures PatchOf(digit, v, Tag(v.(patch := n))) == Some(n)
  {
    var prefix := "v" + (Series(v) + ".");
    var full := Tag(v.(patch := n));
    assert full == prefix + Decimal(n);
    assert full[..|prefix|] == prefix && full[|prefix|..] == Decimal(n);
    DecimalParses(digit, n);
  }

  // ----- reading versions and tags -----

  /** How version strings and the tags of a version's series are read. */
  datatype Reading = Reading(version: string -> Option<Version>, patch: (Version, string) -> Option<nat>)

  /** Written versions are read back, and among the spellings of a version only the written one is ASCII. */
  ghost predicate Faithful(read: Reading) {
    && (forall v {:trigger Render(v)} :: read.version(Render(v)) == Some(v))
    && forall s {:trigger read.version(s)} ::
         read.version(s).Some? && Ascii(s) ==> s == Render(read.version(s).value)
  }

  lemma ReadBack(read: Reading, v: Version)
    requires Faithful(read)
    ensures read.version(Render(v)) == Some(v)
  {
  }

  lemma ReadAscii(read: Reading, s: string)
    requires Faithful(read)
    ensures read.version(s).Some? && Ascii(s) ==> s == Render(read.version(s).value)
  {
  }

  function ReadingOf(digit: Digits): Reading {
    Reading(s => ParseVersion(digit, s), (v, tag) => PatchOf(digit, v, tag))
  }

  lemma ReadingIsFaithful(digit: Digits)
    ensures Faithful(ReadingOf(digit))
  {
    var read := ReadingOf(digit);
    forall v: Version
      ensures read.version(Render(v)) == Some(v)
    {
      RenderedParses(digit, v);
    }
    forall s | read.version(s).Some? && Ascii(s)
      ensures s == Render(read.version(s).value)
    {
      AsciiSpelled(digit, s, read.version(s).value);
    }
  }

  // ----- the check -----

  /** Some tag of the series spells the earlier patch number `n`. */
  ghost predicate Earlier(read: Reading, v: Version, tags: seq<string>, n: nat) {
    n < v.patch && exists i :: 0 <= i < |tags| && read.patch(v, tags[i]) == Some(n)
  }

  /** The newest earlier patch of the series among `tags`. */
  ghost predicate Newest(read: Reading, v: Version, tags: seq<string>, n: nat) {
    Earlier(read, v, tags, n) && forall k: nat :: k > n ==> !Earlier(read, v, tags, k)
  }

  method PreviousRelease(read: Reading, v: Version, tags: seq<string>) returns (r: Option<nat>)
    ensures r.Some? ==> Newest(read, v, tags, r.value)
    ensures r.None? ==> forall n: nat :: !Earlier(read, v, tags, n)
  {
    var earlier: seq<nat> := [];
    for i := 0 to |tags|
      invariant forall n: nat :: n in earlier <==> Earlier(read, v, tags[..i], n)
    {
      var p := read.patch(v, tags[i]);
      EarlierSnoc(read, v, tags, i);
      if p.Some? && p.value < v.patch {
        earlier := earlier + [p.value];
      }
    }
    assert tags[..|tags|] == tags;
    if earlier == [] {
      return None;
    }
    var best := Largest(earlier);
    r := Some(best);
  }

  method Largest(xs: seq<nat>) returns (best: nat)
    requires xs != []
    ensures best in xs && forall n: nat :: n in xs ==> n <= best
  {
    best := xs[0];
    for i := 1 to |xs|
      invariant best in xs && forall k :: 0 <= k < i ==> xs[k] <= best
    {
      if xs[i] > best {
        best := xs[i];
      }
    }
  }

  lemma EarlierSnoc(read: Reading, v: Version, tags: seq<string>, i: nat)
    requires i < |tags|
    ensures forall n: nat :: Earlier(read, v, tags[..i + 1], n) <==>
      Earlier(read, v, tags[..i], n) || (n < v.patch && read.patch(v, tags[i]) == Some(n))
  {
    var more := tags[..i + 1];
    forall n: nat
      ensures Earlier(read, v, more, n) <==>
        Earlier(read, v, tags[..i], n) || (n < v.patch && read.patch(v, tags[i]) == Some(n))
    {
      assert more[i] == tags[i] && forall k :: 0 <= k < i ==> more[k] == tags[..i][k];
    }
  }

  type Contract = seq<Byte>

  /** What a contract declares as its series; `None` when it is not such a document. */
  type Declared = Contract -> Option<string>

  /** The contract published at a tag; `None` when there is none. */
  type Fetcher = string -> Option<Contract>

  ghost predicate Passes(read: Reading, v: Version, contract: Contract, tags: seq<string>, fetch: Fetcher,
                         declared: Declared) {
    && declared(contract) == Some(Series(v))
    && (v.patch == 0 ||
        exists n: nat :: Newest(read, v, tags, n) && fetch(Tag(v.(patch := n))) == Some(contract))
  }

  method Check(digit: Digits, version: string, contract: Contract, tags: seq<string>, fetch: Fetcher,
    declared: Declared)
    returns (ok: bool)
    ensures ok <==> exists v ::
      ParseVersion(digit, version) == Some(v) && Passes(ReadingOf(digit), v, contract, tags, fetch, declared)
  {
    var parsed := ParseVersion(digit, version);
    if parsed.None? {
      return false;
    }
    var v := parsed.value;
    if declared(contract) != Some(Series(v)) {
      return false;
    }
    if v.patch == 0 {
      return true;
    }
    var previous := PreviousRelease(ReadingOf(digit), v, tags);
    if previous.None? {
      return false;
    }
    ok := fetch(Tag(v.(patch := previous.value))) == Some(contract);
    assert forall n: nat :: Newest(ReadingOf(digit), v, tags, n) ==> n == previous.value;
  }

  // ----- histories -----

  /** A published release; its tag is the version string as given, with a "v" in front. */
  datatype Release = Release(version: string, contract: Contract)

  function Versions(h: seq<Release>): (r: seq<string>)
    ensures |r| == |h| && forall i :: 0 <= i < |r| ==> r[i] == h[i].version
  {
    seq(|h|, i requires 0 <= i < |h| => h[i].version)
  }

  function Tags(h: seq<Release>): (r: seq<string>)
    ensures |r| == |h| && forall i :: 0 <= i < |r| ==> r[i] == "v" + h[i].version
  {
    seq(|h|, i requires 0 <= i < |h| => "v" + h[i].version)
  }

  /** What is published under a tag. */
  function Fetch(h: seq<Release>, tag: string): Option<Contract> {
    if h == [] then None
    else if "v" + h[0].version == tag then Some(h[0].contract)
    else Fetch(h[1..], tag)
  }

  /** The release could be published on top of `h`: its tag is new and it passes the check. */
  ghost predicate Publishable(read: Reading, h: seq<Release>, last: Release, declared: Declared) {
    && "v" + last.version !in Tags(h)
    && read.version(last.version).Some?
    && Passes(read, read.version(last.version).value, last.contract, Tags(h), tag => Fetch(h, tag), declared)
  }

  /** An append-only history of releases each of which passed the check when it was published. */
  ghost predicate History(read: Reading, h: seq<Release>, declared: Declared) {
    h == [] || (History(read, h[..|h| - 1], declared) && Publishable(read, h[..|h| - 1], h[|h| - 1], declared))
  }

  /** The numbers of a version string, zeros where it is none. */
  function Numbers(read: Reading, s: string): Version {
    var v := read.version(s);
    if v.Some? then v.value else Version(0, 0, 0)
  }

  /** Contracts are the same exactly within a series. */
  ghost predicate Consistent(read: Reading, h: seq<Release>) {
    forall i, j :: 0 <= i < |h| && 0 <= j < |h| ==>
      (h[i].contract == h[j].contract <==> SameSeries(Numbers(read, h[i].version), Numbers(read, h[j].version)))
  }

  /** No two of the versions open the same series. */
  ghost predicate OneOpener(read: Reading, versions: seq<string>) {
    forall i, j :: 0 <= i < j < |versions| ==> !OpensSame(read, versions[i], versions[j])
  }

  predicate OpensSame(read: Reading, s: string, t: string) {
    var v, w := Numbers(read, s), Numbers(read, t);
    v.patch == 0 && w.patch == 0 && SameSeries(v, w)
  }

  lemma {:induction false} FetchPublished(h: seq<Release>, tag: string)
    requires Fetch(h, tag).Some?
    ensures exists i :: 0 <= i < |h| && "v" + h[i].version == tag && Fetch(h, tag) == Some(h[i].contract)
  {
    if "v" + h[0].version != tag {
      FetchPublished(h[1..], tag);
      var i :| 0 <= i < |h[1..]| && "v" + h[1..][i].version == tag && Fetch(h[1..], tag) == Some(h[1..][i].contract);
      assert h[i + 1] == h[1..][i];
    }
  }

  lemma {:induction false} FetchFound(h: seq<Release>, tag: string)
    requires tag in Tags(h)
    ensures Fetch(h, tag).Some?
  {
    var i :| 0 <= i < |h| && Tags(h)[i] == tag;
    if "v" + h[0].version != tag {
      assert Tags(h[1..])[i - 1] == tag;
      FetchFound(h[1..], tag);
    }
  }

  lemma Published(h: seq<Release>, v: Version) returns (j: nat)
    requires Fetch(h, Tag(v)).Some?
    ensures j < |h| && h[j].version == Render(v) && Fetch(h, Tag(v)) == Some(h[j].contract)
  {
    FetchPublished(h, Tag(v));
    j :| 0 <= j < |h| && "v" + h[j].version == Tag(v) && Fetch(h, Tag(v)) == Some(h[j].contract);
    assert ("v" + h[j].version)[1..] == h[j].version && Tag(v)[1..] == Render(v);
  }

  /** A patch that passes repeats the contract of an earlier release of its series, spelled in ASCII. */
  lemma Predecessor(read: Reading, h: seq<Release>, v: Version, contract: Contract, declared: Declared)
    returns (j: nat, n: nat)
    requires v.patch > 0 && Passes(read, v, contract, Tags(h), tag => Fetch(h, tag), declared)
    ensures j < |h| && n < v.patch && h[j].version == Render(v.(patch := n)) && h[j].contract == contract
  {
    n :| Newest(read, v, Tags(h), n) && Fetch(h, Tag(v.(patch := n))) == Some(contract);
    j := Published(h, v.(patch := n));
  }

  /** Every release of a history declares its series. */
  lemma {:induction false} Declares(read: Reading, h: seq<Release>, declared: Declared, i: nat)
    requires History(read, h, declared) && i < |h|
    ensures read.version(h[i].version).Some?
    ensures declared(h[i].contract) == Some(Series(Numbers(read, h[i].version)))
  {
    if i < |h| - 1 {
      Declares(read, h[..|h| - 1], declared, i);
    }
  }

  /** What the last release of a history repeats, if it is a patch. */
  lemma LastRepeats(read: Reading, h: seq<Release>, declared: Declared) returns (j: nat, n: nat)
    requires h != [] && History(read, h, declared) && Numbers(read, h[|h| - 1].version).patch > 0
    ensures j < |h| - 1 && n < Numbers(read, h[|h| - 1].version).patch
    ensures h[j].version == Render(Numbers(read, h[|h| - 1].version).(patch := n))
    ensures h[j].contract == h[|h| - 1].contract
  {
    var before, last := h[..|h| - 1], h[|h| - 1];
    j, n := Predecessor(read, before, Numbers(read, last.version), last.contract, declared);
    assert before[j] == h[j];
  }

  /** Every patch release carries the contract of the published "x.y.0", spelled in ASCII. */
  lemma {:induction false} Opener(read: Reading, h: seq<Release>, declared: Declared, i: nat) returns (k: nat)
    requires Faithful(read)
    requires History(read, h, declared) && i < |h| && Numbers(read, h[i].version).patch > 0
    ensures k < |h| && h[k].version == Render(Numbers(read, h[i].version).(patch := 0))
    ensures h[k].contract == h[i].contract
    decreases |h|
  {
    if i < |h| - 1 {
      k := Opener(read, h[..|h| - 1], declared, i);
    } else {
      var j, n := LastRepeats(read, h, declared);
      ReadBack(read, Numbers(read, h[i].version).(patch := n));
      k := j;
      if n > 0 {
        k := Opener(read, h[..|h| - 1], declared, j);
      }
    }
  }

  /** Every release has an opener of its series, possibly itself, with its contract. */
  lemma OpenerOf(read: Reading, h: seq<Release>, declared: Declared, i: nat) returns (k: nat)
    requires Faithful(read)
    requires History(read, h, declared) && i < |h|
    ensures k < |h| && h[k].contract == h[i].contract
    ensures OpensSame(read, h[k].version, h[k].version)
    ensures SameSeries(Numbers(read, h[k].version), Numbers(read, h[i].version))
  {
    k := i;
    if Numbers(read, h[i].version).patch > 0 {
      k := Opener(read, h, declared, i);
      ReadBack(read, Numbers(read, h[i].version).(patch := 0));
    }
  }

  /**
   * In every history in which no series is opened twice, whatever the order of publication, two
   * releases carry the same contract exactly when they are of one series.
   */
  lemma SeriesFixesContract(read: Reading, h: seq<Release>, declared: Declared)
    requires Faithful(read)
    requires History(read, h, declared) && OneOpener(read, Versions(h))
    ensures Consistent(read, h)
  {
    forall i, j | 0 <= i < |h| && 0 <= j < |h|
      ensures h[i].contract == h[j].contract <==>
        SameSeries(Numbers(read, h[i].version), Numbers(read, h[j].version))
    {
      Declares(read, h, declared, i);
      Declares(read, h, declared, j);
      SeriesExact(Numbers(read, h[i].version), Numbers(read, h[j].version));
      var a := OpenerOf(read, h, declared, i);
      var b := OpenerOf(read, h, declared, j);
      SameOpener(read, Versions(h), a, b);
    }
  }

  lemma SameOpener(read: Reading, versions: seq<string>, a: nat, b: nat)
    requires OneOpener(read, versions) && a < |versions| && b < |versions|
    ensures OpensSame(read, versions[a], versions[b]) ==> a == b
  {
    assert OpensSame(read, versions[a], versions[b]) ==> OpensSame(read, versions[b], versions[a]);
  }

  lemma {:induction false} TagsUnique(read: Reading, h: seq<Release>, declared: Declared, i: nat, j: nat)
    requires History(read, h, declared) && i < j < |h|
    ensures h[i].version != h[j].version
  {
    if j == |h| - 1 {
      assert Tags(h[..|h| - 1])[i] == "v" + h[i].version;
    } else {
      TagsUnique(read, h[..|h| - 1], declared, i, j);
    }
  }

  /** When all versions are spelled in ASCII no series can be opened twice. */
  lemma AsciiOpensOnce(read: Reading, h: seq<Release>, declared: Declared)
    requires Faithful(read)
    requires History(read, h, declared) && forall i :: 0 <= i < |h| ==> Ascii(h[i].version)
    ensures OneOpener(read, Versions(h)) && Consistent(read, h)
  {
    forall i, j | 0 <= i < j < |h|
      ensures !OpensSame(read, h[i].version, h[j].version)
    {
      Declares(read, h, declared, i);
      Declares(read, h, declared, j);
      TagsUnique(read, h, declared, i, j);
      ReadAscii(read, h[i].version);
      ReadAscii(read, h[j].version);
    }
    SeriesFixesContract(read, h, declared);
  }

  /**
   * What may be published next: on top of a history, a patch release passes exactly when the
   * newest earlier patch is published under its ASCII tag with that contract.
   */
  lemma PatchAccepted(read: Reading, h: seq<Release>, declared: Declared, v: Version, contract: Contract)
    requires Faithful(read)
    requires History(read, h, declared) && v.patch > 0
    ensures Passes(read, v, contract, Tags(h), tag => Fetch(h, tag), declared) <==>
      && Release(Render(v.(patch := 0)), contract) in h
      && exists n: nat :: Newest(read, v, Tags(h), n) && Tag(v.(patch := n)) in Tags(h)
  {
    if n: nat :| Newest(read, v, Tags(h), n) && Tag(v.(patch := n)) in Tags(h) {
      FetchFound(h, Tag(v.(patch := n)));
      var j := Published(h, v.(patch := n));
      ReadBack(read, v.(patch := n));
      Declares(read, h, declared, j);
      SeriesExact(v, v.(patch := n));
      var k := j;
      if n > 0 {
        k := Opener(read, h, declared, j);
      }
      assert h[k] == Release(Render(v.(patch := 0)), h[j].contract);
      if Release(Render(v.(patch := 0)), contract) in h {
        var x :| 0 <= x < |h| && h[x] == Release(Render(v.(patch := 0)), contract);
        SameRelease(read, h, declared, x, k);
      }
    }
    if Passes(read, v, contract, Tags(h), tag => Fetch(h, tag), declared) {
      var n: nat :| Newest(read, v, Tags(h), n) && Fetch(h, Tag(v.(patch := n))) == Some(contract);
      var j := Published(h, v.(patch := n));
      assert Tags(h)[j] == Tag(v.(patch := n));
    }
  }

  lemma SameRelease(read: Reading, h: seq<Release>, declared: Declared, i: nat, j: nat)
    requires History(read, h, declared) && i < |h| && j < |h|
    ensures h[i].version == h[j].version ==> i == j
  {
    if i < j {
      TagsUnique(read, h, declared, i, j);
    } else if j < i {
      TagsUnique(read, h, declared, j, i);
    }
  }

  lemma NewestExists(read: Reading, v: Version, tags: seq<string>, n: nat) returns (m: nat)
    requires Earlier(read, v, tags, n)
    ensures Newest(read, v, tags, m)
    decreases v.patch - n
  {
    m := n;
    if k: nat :| k > n && Earlier(read, v, tags, k) {
      m := NewestExists(read, v, tags, k);
    }
  }

  /** An ASCII tag of the series is the written one. */
  lemma AsciiTag(digit: Digits, v: Version, tag: string, n: nat)
    requires PatchOf(digit, v, tag) == Some(n) && Ascii(tag)
    ensures tag == Tag(v.(patch := n))
  {
    var prefix := "v" + (Series(v) + ".");
    var rest := tag[|prefix|..];
    assert tag == prefix + rest;
    assert forall i :: 0 <= i < |rest| ==> rest[i] == tag[|prefix| + i];
    DecimalSpelling(digit, rest, n);
  }

  /** Once a series is opened, the newest of its ASCII tags is published under its written form. */
  lemma AsciiNewest(digit: Digits, v: Version, tags: seq<string>)
    requires v.patch > 0 && Tag(v.(patch := 0)) in tags && forall i :: 0 <= i < |tags| ==> Ascii(tags[i])
    ensures exists n: nat :: Newest(ReadingOf(digit), v, tags, n) && Tag(v.(patch := n)) in tags
  {
    PatchOfTag(digit, v, 0);
    assert Earlier(ReadingOf(digit), v, tags, 0);
    var n := NewestExists(ReadingOf(digit), v, tags, 0);
    var i :| 0 <= i < |tags| && PatchOf(digit, v, tags[i]) == Some(n);
    AsciiTag(digit, v, tags[i], n);
  }

  lemma AsciiTags(h: seq<Release>)
    requires forall i :: 0 <= i < |h| ==> Ascii(h[i].version)
    ensures forall i :: 0 <= i < |h| ==> Ascii(Tags(h)[i])
  {
  }

  lemma PatchOnOpener(read: Reading, h: seq<Release>, declared: Declared, v: Version, contract: Contract)
    requires Faithful(read) && History(read, h, declared) && v.patch > 0
    requires Tag(v.(patch := 0)) in Tags(h) ==>
      exists n: nat :: Newest(read, v, Tags(h), n) && Tag(v.(patch := n)) in Tags(h)
    ensures Passes(read, v, contract, Tags(h), tag => Fetch(h, tag), declared) <==>
      Release(Render(v.(patch := 0)), contract) in h
  {
    PatchAccepted(read, h, declared, v, contract);
    if Release(Render(v.(patch := 0)), contract) in h {
      var x :| 0 <= x < |h| && h[x] == Release(Render(v.(patch := 0)), contract);
      assert Tags(h)[x] == Tag(v.(patch := 0));
    }
  }

  /**
   * Where all versions are spelled in ASCII, a patch release passes exactly when its series was
   * opened with that very contract.
   */
  lemma AsciiPatchAccepted(digit: Digits, h: seq<Release>, declared: Declared, v: Version, contract: Contract)
    requires History(ReadingOf(digit), h, declared) && v.patch > 0
    requires forall i :: 0 <= i < |h| ==> Ascii(h[i].version)
    ensures Passes(ReadingOf(digit), v, contract, Tags(h), tag => Fetch(h, tag), declared) <==>
      Release(Render(v.(patch := 0)), contract) in h
  {
    ReadingIsFaithful(digit);
    AsciiTags(h);
    if Tag(v.(patch := 0)) in Tags(h) {
      AsciiNewest(digit, v, Tags(h));
    }
    PatchOnOpener(ReadingOf(digit), h, declared, v, contract);
  }

  // ----- exactly which version lists fix their contracts -----

  /** A text as a contract, with an optional mark at its end. */
  function Stamp(s: string, mark: bool): Contract {
    seq(|s|, i requires 0 <= i < |s| => if s[i] < '\U{80}' then s[i] as int else 0) + (if mark then [0] else [])
  }

  function Unstamp(c: Contract): string {
    var text := if c != [] && c[|c| - 1] == 0 then c[..|c| - 1] else c;
    seq(|text|, i requires 0 <= i < |text| => text[i] as char)
  }

  /** Stamped contracts declare the series they were stamped with. */
  function StampDeclares(c: Contract): Option<string> {
    Some(Unstamp(c))
  }

  lemma StampReads(v: Version, mark: bool)
    ensures Unstamp(Stamp(Series(v), mark)) == Series(v)
  {
    var s, c := Series(v), Stamp(Series(v), mark);
    var body := Stamp(s, false);
    assert |Decimal(v.minor)| > 0 && IsDigitChar(Decimal(v.minor)[|Decimal(v.minor)| - 1]);
    assert s[|s| - 1] == Decimal(v.minor)[|Decimal(v.minor)| - 1];
    AsciiJoined(Decimal(v.major), Decimal(v.minor));
    if mark {
      assert c[..|c| - 1] == body;
    } else {
      assert c == body && c[|c| - 1] == s[|s| - 1] as int;
    }
    assert forall i :: 0 <= i < |s| ==> body[i] as char == s[i];
  }

  /** The versions of `h` again, each with the plain stamp of its series, and release `x` with the marked one. */
  function Restamped(read: Reading, h: seq<Release>, x: int): (r: seq<Release>)
    ensures |r| == |h| && Versions(r) == Versions(h) && Tags(r) == Tags(h)
  {
    seq(|h|, i requires 0 <= i < |h| =>
      Release(h[i].version, Stamp(Series(Numbers(read, h[i].version)), i == x)))
  }

  /** An opener that is not spelled in ASCII is never fetched, so its contract is free. */
  lemma {:induction false} RestampedHistory(read: Reading, h: seq<Release>, declared: Declared, x: nat)
    requires Faithful(read)
    requires History(read, h, declared)
    requires x < |h| ==> Numbers(read, h[x].version).patch == 0 && !Ascii(h[x].version)
    ensures History(read, Restamped(read, h, x), StampDeclares)
  {
    if h != [] {
      RestampedHistory(read, h[..|h| - 1], declared, x);
      RestampedNext(read, h[..|h| - 1], h[|h| - 1], declared, x);
      RestampedSnoc(read, h, x);
    }
  }

  lemma RestampedSnoc(read: Reading, h: seq<Release>, x: nat)
    requires h != []
    ensures var r := Restamped(read, h, x);
      && r[..|r| - 1] == Restamped(read, h[..|h| - 1], x)
      && r[|r| - 1] == Release(h[|h| - 1].version, Stamp(Series(Numbers(read, h[|h| - 1].version)), |h| - 1 == x))
  {
  }

  lemma RestampedNext(read: Reading, h: seq<Release>, last: Release, declared: Declared, x: nat)
    requires Faithful(read)
    requires Publishable(read, h, last, declared)
    requires x < |h| ==> Numbers(read, h[x].version).patch == 0 && !Ascii(h[x].version)
    requires x == |h| ==> Numbers(read, last.version).patch == 0
    ensures var stamped := Release(last.version, Stamp(Series(Numbers(read, last.version)), |h| == x));
      Publishable(read, Restamped(read, h, x), stamped, StampDeclares)
  {
    var v := Numbers(read, last.version);
    StampReads(v, |h| == x);
    if v.patch > 0 {
      var n: nat :| Newest(read, v, Tags(h), n) && Fetch(h, Tag(v.(patch := n))) == Some(last.contract);
      var k := Published(h, v.(patch := n));
      RestampedFetch(read, h, x, v, n, k);
    }
  }

  /** What is published under an ASCII tag has the plain stamp. */
  lemma RestampedFetch(read: Reading, h: seq<Release>, x: nat, v: Version, n: nat, k: nat)
    requires Faithful(read)
    requires x < |h| ==> !Ascii(h[x].version)
    requires k < |h| && h[k].version == Render(v.(patch := n))
    ensures Fetch(Restamped(read, h, x), Tag(v.(patch := n))) == Some(Stamp(Series(v), false))
  {
    var r := Restamped(read, h, x);
    assert Tags(r)[k] == Tag(v.(patch := n));
    FetchFound(r, Tag(v.(patch := n)));
    var j := Published(r, v.(patch := n));
    RenderAscii(v.(patch := n));
    ReadBack(read, v.(patch := n));
    assert h[j].version == Versions(r)[j] && j != x;
  }

  /** All histories of the given versions, with whatever contracts, are consistent. */
  ghost predicate FixesContracts(read: Reading, versions: seq<string>) {
    forall h, declared {:trigger History(read, h, declared)} ::
      History(read, h, declared) && Versions(h) == versions ==> Consistent(read, h)
  }

  /** A series opened twice leaves the contract of one opener free. */
  lemma TwoOpenersDiffer(read: Reading, h: seq<Release>, declared: Declared, i: nat, j: nat)
    requires Faithful(read)
    requires History(read, h, declared) && i < j < |h| && OpensSame(read, h[i].version, h[j].version)
    ensures !FixesContracts(read, Versions(h))
  {
    var x := OddOpener(read, h, declared, i, j);
    RestampedHistory(read, h, declared, x);
    RestampedInconsistent(read, h, x, i, j);
    NotFixed(read, Restamped(read, h, x), StampDeclares);
  }

  lemma NotFixed(read: Reading, h: seq<Release>, declared: Declared)
    requires History(read, h, declared) && !Consistent(read, h)
    ensures !FixesContracts(read, Versions(h))
  {
  }

  lemma RestampedInconsistent(read: Reading, h: seq<Release>, x: nat, i: nat, j: nat)
    requires i < j < |h| && (x == i || x == j)
    requires SameSeries(Numbers(read, h[i].version), Numbers(read, h[j].version))
    ensures !Consistent(read, Restamped(read, h, x))
  {
    var r := Restamped(read, h, x);
    assert r[i].version == Versions(r)[i] && r[j].version == Versions(r)[j];
    StampsDiffer(read, h, x, i, j);
  }

  lemma StampsDiffer(read: Reading, h: seq<Release>, x: nat, i: nat, j: nat)
    requires i < j < |h| && (x == i || x == j)
    requires SameSeries(Numbers(read, h[i].version), Numbers(read, h[j].version))
    ensures Restamped(read, h, x)[i].contract != Restamped(read, h, x)[j].contract
  {
    SeriesExact(Numbers(read, h[i].version), Numbers(read, h[j].version));
    var s := Series(Numbers(read, h[i].version));
    assert |Stamp(s, true)| == |Stamp(s, false)| + 1;
  }

  /**
   * The exact condition, which can be read off the version strings alone: whatever the contracts,
   * the histories of a list of versions are consistent exactly when no series is opened twice.
   */
  lemma ReadingDecides(read: Reading, h: seq<Release>, declared: Declared)
    requires Faithful(read)
    requires History(read, h, declared)
    ensures FixesContracts(read, Versions(h)) <==> OneOpener(read, Versions(h))
  {
    if OneOpener(read, Versions(h)) {
      forall g, other | History(read, g, other) && Versions(g) == Versions(h)
        ensures Consistent(read, g)
      {
        SeriesFixesContract(read, g, other);
      }
    } else {
      var i, j :| 0 <= i < j < |h| && OpensSame(read, Versions(h)[i], Versions(h)[j]);
      TwoOpenersDiffer(read, h, declared, i, j);
    }
  }

  /** The same for the pattern with any class of digits that extends the ASCII ones. */
  lemma VersionsDecide(digit: Digits, h: seq<Release>, declared: Declared)
    requires History(ReadingOf(digit), h, declared)
    ensures FixesContracts(ReadingOf(digit), Versions(h)) <==> OneOpener(ReadingOf(digit), Versions(h))
  {
    ReadingIsFaithful(digit);
    ReadingDecides(ReadingOf(digit), h, declared);
  }

  /** Of two openers of one series at least one is not spelled in ASCII. */
  lemma OddOpener(read: Reading, h: seq<Release>, declared: Declared, i: nat, j: nat) returns (x: nat)
    requires Faithful(read)
    requires History(read, h, declared) && i < j < |h| && OpensSame(read, h[i].version, h[j].version)
    ensures (x == i || x == j) && !Ascii(h[x].version)
  {
    x := if Ascii(h[i].version) then j else i;
    Declares(read, h, declared, i);
    Declares(read, h, declared, j);
    TagsUnique(read, h, declared, i, j);
    ReadAscii(read, h[i].version);
    ReadAscii(read, h[j].version);
  }

  // ----- the inputs at which it fails -----

  /** A digit class that reads the Arabic-Indic zero, as the source's pattern does. */
  ghost predicate ReadsArabicZero(digit: Digits) {
    digit('\U{660}') == Some(0)
  }

  lemma Spellings(digit: Digits)
    requires ReadsArabicZero(digit)
    ensures ParseDecimal(digit, "1\U{660}") == Some(10) && ParseDecimal(digit, "10") == Some(10)
    ensures ParseDecimal(digit, "2") == Some(2) && ParseDecimal(digit, "0") == Some(0)
  {
    assert ""[..0] == "" && "0"[..0] == "" && "1"[..0] == "" && "2"[..0] == "";
    assert "1\U{660}"[..1] == "1" && "10"[..1] == "1";
    assert Value(digit, "1") == 1;
    assert Value(digit, "1\U{660}") == 10;
    assert Value(digit, "10") == 10;
  }

  function PlainOpener(): Release {
    Release("10.2.0", [0])
  }

  function ArabicOpener(): Release {
    Release("1\U{660}.2.0", [1])
  }

  function DeclaresTenTwo(c: Contract): Option<string> {
    Some("10.2")
  }

  lemma PlainRead(digit: Digits)
    requires ReadsArabicZero(digit)
    ensures ParseVersion(digit, PlainOpener().version) == Some(Version(10, 2, 0))
  {
    Spellings(digit);
    JoinedParses(digit, "10", "2", "0");
    assert "10" + ("." + ("2" + ("." + "0"))) == PlainOpener().version;
  }

  lemma ArabicRead(digit: Digits)
    requires ReadsArabicZero(digit)
    ensures ParseVersion(digit, ArabicOpener().version) == Some(Version(10, 2, 0))
  {
    Spellings(digit);
    JoinedParses(digit, "1\U{660}", "2", "0");
    assert "1\U{660}" + ("." + ("2" + ("." + "0"))) == ArabicOpener().version;
  }

  lemma TenTwo()
    ensures Series(Version(10, 2, 0)) == "10.2"
    ensures "v" + PlainOpener().version != "v" + ArabicOpener().version
  {
    assert Decimal(10) == "10" && Decimal(2) == "2";
    var a, b := PlainOpener().version, ArabicOpener().version;
    assert ("v" + a)[2] == a[1] == '0' && ("v" + b)[2] == b[1] == '\U{660}';
  }

  /** Two releases that are read as openers of the declared series, under two tags, make a history. */
  lemma TwoOpeners(read: Reading, a: Release, b: Release, v: Version, declared: Declared)
    requires read.version(a.version) == Some(v) && read.version(b.version) == Some(v) && v.patch == 0
    requires declared(a.contract) == Some(Series(v)) && declared(b.contract) == Some(Series(v))
    requires "v" + a.version != "v" + b.version && a.contract != b.contract
    ensures History(read, [a, b], declared) && !Consistent(read, [a, b])
  {
    var h := [a, b];
    assert h[..1] == [a] && h[..1][..0] == [];
    assert History(read, h[..1][..0], declared);
    assert Publishable(read, h[..1][..0], a, declared);
    assert History(read, h[..1], declared);
    assert Tags(h[..1]) == ["v" + a.version];
    assert Publishable(read, h[..1], b, declared);
    assert h[0].contract != h[1].contract;
  }

  /**
   * The series "10.2" opened twice: as "10.2.0", and again with an Arabic-Indic zero in the first
   * number. Both pass, under distinct tags, with different contracts.
   */
  lemma SeriesOpenedTwice(digit: Digits)
    requires ReadsArabicZero(digit)
    ensures var h := [PlainOpener(), ArabicOpener()];
      History(ReadingOf(digit), h, DeclaresTenTwo) && !Consistent(ReadingOf(digit), h)
  {
    PlainRead(digit);
    ArabicRead(digit);
    TenTwo();
    TwoOpeners(ReadingOf(digit), PlainOpener(), ArabicOpener(), Version(10, 2, 0), DeclaresTenTwo);
  }

  /** The predecessor that is named need not be among the tags: only its number is. */
  lemma PredecessorUnpublished(digit: Digits)
    requires ReadsArabicZero(digit)
    ensures var tags := ["v10.2.1\U{660}"];
      Newest(ReadingOf(digit), Version(10, 2, 11), tags, 10) && Tag(Version(10, 2, 10)) !in tags
  {
    var v, tags := Version(10, 2, 11), ["v10.2.1\U{660}"];
    Spellings(digit);
    var prefix := "v" + (Series(v) + ".");
    assert Decimal(10) == "10" && Decimal(2) == "2";
    assert prefix == "v10.2.";
    assert tags[0] == prefix + "1\U{660}";
    assert tags[0][|prefix|..] == "1\U{660}";
    assert PatchOf(digit, v, tags[0]) == Some(10);
    RenderAscii(Version(10, 2, 10));
    assert Tag(Version(10, 2, 10))[1..] == Render(Version(10, 2, 10));
    assert tags[0][1..][6] == '\U{660}';
  }
}
