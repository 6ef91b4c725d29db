/**
 * Signed inventories of recovered files. An inventory is a list of rows in any order; comparing
 * it with files accepts exactly when both describe the same names, sizes and digests, so that a
 * signed inventory determines the files up to digest collisions.
 */
module RecoveryInventory {
  import opened Common
  import opened Utf8
  import opened IdentityDigest
  import opened RecoveryNames

  const MAX_BYTES := 1024 * 1024 * 1024

  /** An inventory row as decoded; anything without exactly the three typed fields is malformed. */
  datatype RawRow = Malformed | Row(filename: Text, size: int, sha256: string)

  type FileSet = map<Text, seq<Byte>>

  /** A signed document: which attempt and artifact it is about, and what the artifact holds. */
  datatype Binding = Binding(schema: int, kind: string, attempt: Attempt, artifact: string, inventory: seq<RawRow>)

  /** The string rules and decoders the checks use: portable names, case folding, SHA-256, JSON. */
  datatype Rules = Rules(safe: Text -> bool, fold: Text -> Text, digest: seq<Byte> -> string,
                         decode: seq<Byte> -> Option<Binding>)

  ghost predicate Hashes(rules: Rules) {
    forall b {:trigger rules.digest(b)} :: Sha256Text(rules.digest(b))
  }

  // ----- what an inventory describes -----

  /** Size and digest by name. */
  type Description = map<Text, (int, string)>

  predicate GoodRow(rules: Rules, r: RawRow) {
    r.Row? && rules.safe(r.filename) && 0 <= r.size <= MAX_BYTES && Sha256Text(r.sha256)
  }

  predicate GoodRows(rules: Rules, rows: seq<RawRow>) {
    && (forall i :: 0 <= i < |rows| ==> GoodRow(rules, rows[i]))
    && forall i, j :: 0 <= i < j < |rows| ==> rules.fold(rows[i].filename) != rules.fold(rows[j].filename)
  }

  /** A list the program accepts: not empty, well-formed rows, no two names alike in case folding. */
  predicate GoodInventory(rules: Rules, rows: seq<RawRow>) {
    rows != [] && GoodRows(rules, rows)
  }

  ghost function Describes(rows: seq<RawRow>): (m: Description) {
    if rows == [] then map[]
    else
      var last := rows[|rows| - 1];
      if last.Row? then Describes(rows[..|rows| - 1])[last.filename := (last.size, last.sha256)]
      else Describes(rows[..|rows| - 1])
  }

  /** Every described name comes from a row. */
  lemma {:induction false} DescribedNames(rows: seq<RawRow>, n: Text)
    requires n in Describes(rows)
    ensures exists i :: 0 <= i < |rows| && rows[i].Row? && rows[i].filename == n
  {
    var init, last := rows[..|rows| - 1], rows[|rows| - 1];
    if last.Row? && last.filename == n {
      assert rows[|rows| - 1].filename == n;
    } else {
      DescribedNames(init, n);
      var i :| 0 <= i < |init| && init[i].Row? && init[i].filename == n;
      assert rows[i].filename == n;
    }
  }

  /** Every row of a good list is described. */
  lemma {:induction false} DescribesRow(rules: Rules, rows: seq<RawRow>, i: nat)
    requires GoodRows(rules, rows) && i < |rows|
    ensures var r := rows[i]; r.filename in Describes(rows) && Describes(rows)[r.filename] == (r.size, r.sha256)
  {
    var init, last := rows[..|rows| - 1], rows[|rows| - 1];
    if i < |init| {
      DescribesRow(rules, init, i);
      assert rules.fold(rows[i].filename) != rules.fold(last.filename);
    }
  }

  /** A description holds exactly the rows of a good list. */
  lemma DescribesRows(rules: Rules, rows: seq<RawRow>)
    requires GoodRows(rules, rows)
    ensures forall i :: 0 <= i < |rows| ==>
      rows[i].filename in Describes(rows) && Describes(rows)[rows[i].filename] == (rows[i].size, rows[i].sha256)
    ensures forall n :: n in Describes(rows) ==> exists i :: 0 <= i < |rows| && rows[i].filename == n
  {
    forall i | 0 <= i < |rows|
      ensures rows[i].filename in Describes(rows) && Describes(rows)[rows[i].filename] == (rows[i].size, rows[i].sha256)
    {
      DescribesRow(rules, rows, i);
    }
    forall n | n in Describes(rows)
      ensures exists i :: 0 <= i < |rows| && rows[i].filename == n
    {
      DescribedNames(rows, n);
    }
  }

  function Names(rows: seq<RawRow>): (r: seq<Text>)
    requires forall i :: 0 <= i < |rows| ==> rows[i].Row?
    ensures |r| == |rows| && forall i :: 0 <= i < |r| ==> r[i] == rows[i].filename
  {
    seq(|rows|, i requires 0 <= i < |rows| => rows[i].filename)
  }

  predicate Ascending(rows: seq<RawRow>) {
    && (forall i :: 0 <= i < |rows| ==> rows[i].Row?)
    && forall i, j :: 0 <= i < j < |rows| ==> Less(rows[i].filename, rows[j].filename)
  }

  ghost predicate HasName(rows: seq<RawRow>, n: Text) {
    exists i :: 0 <= i < |rows| && rows[i].Row? && rows[i].filename == n
  }

  /** The rows of a description in ascending order of their names. */
  ghost predicate Sorted(rows: seq<RawRow>, m: Description) {
    && Ascending(rows)
    && (forall i :: 0 <= i < |rows| ==> rows[i].filename in m && m[rows[i].filename] == (rows[i].size, rows[i].sha256))
    && forall n {:trigger HasName(rows, n)} :: n in m ==> HasName(rows, n)
  }

  lemma SortedNames(rows: seq<RawRow>, m: Description)
    requires Sorted(rows, m)
    ensures InTextOrder(Names(rows), m.Keys)
  {
    var names := Names(rows);
    forall n
      ensures n in names <==> n in m.Keys
    {
      if n in m.Keys {
        assert HasName(rows, n);
        var i :| 0 <= i < |rows| && rows[i].filename == n;
        assert names[i] == n;
      }
    }
  }

  lemma SortedIn(a: seq<RawRow>, x: Description, b: seq<RawRow>, y: Description)
    requires Sorted(a, x) && Sorted(b, y) && a == b
    ensures x == y
  {
    SortedNames(a, x);
    SortedNames(b, y);
    assert x.Keys == y.Keys by {
      assert forall n :: n in x.Keys <==> n in Names(a);
    }
    forall n | n in x
      ensures x[n] == y[n]
    {
      assert HasName(a, n);
    }
  }

  /** Sorted lists are equal exactly when they have the same description. */
  lemma SortedUnique(a: seq<RawRow>, x: Description, b: seq<RawRow>, y: Description)
    requires Sorted(a, x) && Sorted(b, y)
    ensures a == b <==> x == y
  {
    if a == b {
      SortedIn(a, x, b, y);
    }
    if x == y {
      SortedNames(a, x);
      SortedNames(b, y);
      TextOrderUnique(Names(a), Names(b), x.Keys);
      forall i | 0 <= i < |a|
        ensures a[i] == b[i]
      {
        assert Names(a)[i] == Names(b)[i];
      }
    }
  }

  // ----- sorting and validating -----

  /** Where a new name belongs in ascending rows. */
  method InsertRow(rows: seq<RawRow>, r: RawRow, ghost m: Description) returns (more: seq<RawRow>)
    requires Sorted(rows, m) && r.Row? && r.filename !in m
    ensures Sorted(more, m[r.filename := (r.size, r.sha256)])
  {
    var k := 0;
    while k < |rows| && Less(rows[k].filename, r.filename)
      invariant k <= |rows| && forall i :: 0 <= i < k ==> Less(rows[i].filename, r.filename)
    {
      k := k + 1;
    }
    more := rows[..k] + ([r] + rows[k..]);
    InsertSorted(rows, r, m, k);
  }

  /** The new name is below everything from its place on. */
  lemma Above(rows: seq<RawRow>, r: RawRow, m: Description, k: nat, i: nat)
    requires Sorted(rows, m) && r.Row? && r.filename !in m && k <= i < |rows|
    requires !Less(rows[k].filename, r.filename)
    ensures Less(r.filename, rows[i].filename)
  {
    LessTotal(rows[k].filename, r.filename);
    if i > k {
      LessTransitive(r.filename, rows[k].filename, rows[i].filename);
    }
  }

  /** The list with `r` put in at `k`, position by position. */
  function At(rows: seq<RawRow>, r: RawRow, k: nat, i: nat): RawRow
    requires k <= |rows| && i <= |rows|
  {
    if i < k then rows[i] else if i == k then r else rows[i - 1]
  }

  lemma InsertAscending(rows: seq<RawRow>, r: RawRow, m: Description, k: nat, more: seq<RawRow>)
    requires Sorted(rows, m) && r.Row? && r.filename !in m && k <= |rows|
    requires forall i :: 0 <= i < k ==> Less(rows[i].filename, r.filename)
    requires k < |rows| ==> !Less(rows[k].filename, r.filename)
    requires |more| == |rows| + 1 && forall i :: 0 <= i < |more| ==> more[i] == At(rows, r, k, i)
    ensures Ascending(more)
  {
    forall i, j | 0 <= i < j < |more|
      ensures Less(more[i].filename, more[j].filename)
    {
      if i == k {
        Above(rows, r, m, k, j - 1);
      }
    }
  }

  lemma InsertNames(rows: seq<RawRow>, r: RawRow, k: nat, more: seq<RawRow>, n: Text)
    requires r.Row? && k <= |rows|
    requires |more| == |rows| + 1 && forall i :: 0 <= i < |more| ==> more[i] == At(rows, r, k, i)
    ensures HasName(rows, n) || n == r.filename ==> HasName(more, n)
  {
    if HasName(rows, n) {
      var i :| 0 <= i < |rows| && rows[i].Row? && rows[i].filename == n;
      assert more[if i < k then i else i + 1] == rows[i];
    }
    assert more[k] == r;
  }

  lemma InsertSorted(rows: seq<RawRow>, r: RawRow, m: Description, k: nat)
    requires Sorted(rows, m) && r.Row? && r.filename !in m && k <= |rows|
    requires forall i :: 0 <= i < k ==> Less(rows[i].filename, r.filename)
    requires k < |rows| ==> !Less(rows[k].filename, r.filename)
    ensures Sorted(rows[..k] + ([r] + rows[k..]), m[r.filename := (r.size, r.sha256)])
  {
    var more := rows[..k] + ([r] + rows[k..]);
    assert forall i :: 0 <= i < |more| ==> more[i] == At(rows, r, k, i);
    InsertAscending(rows, r, m, k, more);
    forall n | n in m[r.filename := (r.size, r.sha256)]
      ensures HasName(more, n)
    {
      InsertNames(rows, r, k, more, n);
    }
  }

  /** The state of the validation after the first `i` rows. */
  ghost predicate Validated(rules: Rules, inventory: seq<RawRow>, names: set<Text>, rows: seq<RawRow>) {
    && GoodRows(rules, inventory)
    && Sorted(rows, Describes(inventory))
    && forall f {:trigger f in names} :: f in names <==>
      exists k :: 0 <= k < |inventory| && rules.fold(inventory[k].filename) == f
  }

  lemma ValidatedNext(rules: Rules, inventory: seq<RawRow>, row: RawRow, names: set<Text>, rows: seq<RawRow>,
    more: seq<RawRow>)
    requires Validated(rules, inventory, names, rows) && GoodRow(rules, row) && rules.fold(row.filename) !in names
    requires Sorted(more, Describes(inventory)[row.filename := (row.size, row.sha256)])
    ensures Validated(rules, inventory + [row], names + {rules.fold(row.filename)}, more)
  {
    var longer := inventory + [row];
    assert longer[..|longer| - 1] == inventory;
    forall f
      ensures f in names + {rules.fold(row.filename)} <==>
        exists k :: 0 <= k < |longer| && rules.fold(longer[k].filename) == f
    {
      if f in names {
        var k :| 0 <= k < |inventory| && rules.fold(inventory[k].filename) == f;
        assert longer[k] == inventory[k];
      }
      assert longer[|inventory|] == row;
    }
  }

  /** Accepts exactly the good lists, and then returns the sorted rows of what they describe. */
  method ValidateInventory(rules: Rules, inventory: seq<RawRow>) returns (r: Option<seq<RawRow>>)
    ensures r.Some? <==> GoodInventory(rules, inventory)
    ensures r.Some? ==> Sorted(r.value, Describes(inventory))
  {
    if inventory == [] {
      return None;
    }
    var names: set<Text> := {};
    var rows: seq<RawRow> := [];
    for i := 0 to |inventory|
      invariant Validated(rules, inventory[..i], names, rows)
    {
      var row := inventory[i];
      if row.Malformed? || !rules.safe(row.filename) || rules.fold(row.filename) in names || row.size < 0 ||
        row.size > MAX_BYTES || !Sha256Text(row.sha256) {
        NotGood(rules, inventory, i, names);
        return None;
      }
      NotDescribed(rules, inventory[..i], row.filename);
      var more := InsertRow(rows, row, Describes(inventory[..i]));
      ValidatedNext(rules, inventory[..i], row, names, rows, more);
      names, rows := names + {rules.fold(row.filename)}, more;
      assert inventory[..i + 1] == inventory[..i] + [row];
    }
    assert inventory[..|inventory|] == inventory;
    r := Some(rows);
  }

  lemma NotGood(rules: Rules, inventory: seq<RawRow>, i: nat, names: set<Text>)
    requires i < |inventory| && GoodRows(rules, inventory[..i])
    requires forall f :: f in names ==> exists k :: 0 <= k < i && rules.fold(inventory[..i][k].filename) == f
    requires !GoodRow(rules, inventory[i]) || rules.fold(inventory[i].filename) in names
    ensures !GoodInventory(rules, inventory)
  {
    if GoodRow(rules, inventory[i]) {
      var k :| 0 <= k < i && rules.fold(inventory[..i][k].filename) == rules.fold(inventory[i].filename);
      assert inventory[..i][k] == inventory[k];
    }
  }

  lemma NotDescribed(rules: Rules, rows: seq<RawRow>, name: Text)
    requires GoodRows(rules, rows)
    requires forall k :: 0 <= k < |rows| ==> rules.fold(rows[k].filename) != rules.fold(name)
    ensures name !in Describes(rows)
  {
    DescribesRows(rules, rows);
  }

  // ----- order does not matter -----

  lemma {:induction false} Twice(s: seq<RawRow>, x: RawRow)
    ensures multiset(s)[x] >= 2 ==> exists i, j :: 0 <= i < j < |s| && s[i] == x && s[j] == x
  {
    if s != [] {
      var t := s[..|s| - 1];
      assert s == t + [s[|s| - 1]];
      Twice(t, x);
      if multiset(s)[x] >= 2 {
        if multiset(t)[x] >= 2 {
          var i, j :| 0 <= i < j < |t| && t[i] == x && t[j] == x;
          assert s[i] == x && s[j] == x;
        } else {
          assert x in t;
          var i :| 0 <= i < |t| && t[i] == x;
          assert s[i] == x && s[|s| - 1] == x;
        }
      }
    }
  }

  lemma Once(rules: Rules, rows: seq<RawRow>, x: RawRow)
    requires GoodRows(rules, rows)
    ensures multiset(rows)[x] <= 1
  {
    Twice(rows, x);
  }

  lemma ReorderedRows(rules: Rules, a: seq<RawRow>, b: seq<RawRow>)
    requires multiset(a) == multiset(b) && GoodRows(rules, a)
    ensures GoodRows(rules, b)
  {
    assert forall x :: x in b <==> x in multiset(b);
    forall i | 0 <= i < |b|
      ensures b[i] in a
    {
      assert b[i] in multiset(a);
    }
    forall i, j | 0 <= i < j < |b|
      ensures b[i].Row? && b[j].Row? && rules.fold(b[i].filename) != rules.fold(b[j].filename)
    {
      var x :| 0 <= x < |a| && a[x] == b[i];
      var y :| 0 <= y < |a| && a[y] == b[j];
      Once(rules, a, b[i]);
      TwoPlaces(b, i, j);
    }
  }

  lemma DescribesSame(rules: Rules, a: seq<RawRow>, b: seq<RawRow>, n: Text)
    requires GoodRows(rules, a) && GoodRows(rules, b) && (forall x :: x in a ==> x in b) && n in Describes(a)
    ensures n in Describes(b) && Describes(a)[n] == Describes(b)[n]
  {
    DescribedNames(a, n);
    var i :| 0 <= i < |a| && a[i].Row? && a[i].filename == n;
    assert a[i] in b;
    var j :| 0 <= j < |b| && b[j] == a[i];
    DescribesRow(rules, a, i);
    DescribesRow(rules, b, j);
  }

  /** Any reordering of a good list is good and describes the same files. */
  lemma ReorderedInventory(rules: Rules, a: seq<RawRow>, b: seq<RawRow>)
    requires multiset(a) == multiset(b) && GoodInventory(rules, a)
    ensures GoodInventory(rules, b) && Describes(a) == Describes(b)
  {
    ReorderedRows(rules, a, b);
    assert |multiset(a)| == |a| && |multiset(b)| == |b|;
    assert forall x :: x in a <==> x in multiset(a);
    assert forall x :: x in b <==> x in multiset(b);
    forall n | n in Describes(a)
      ensures n in Describes(b) && Describes(a)[n] == Describes(b)[n]
    {
      DescribesSame(rules, a, b, n);
    }
    forall n | n in Describes(b)
      ensures n in Describes(a)
    {
      DescribesSame(rules, b, a, n);
    }
  }

  lemma TwoPlaces(s: seq<RawRow>, i: nat, j: nat)
    requires i < j < |s|
    ensures s[i] == s[j] ==> multiset(s)[s[i]] >= 2
  {
    assert s == s[..j] + s[j..];
    assert s[i] in s[..j] && s[j] in s[j..];
    assert multiset(s) == multiset(s[..j]) + multiset(s[j..]);
  }

  // ----- comparing with files -----

  ghost function FilesDescribe(rules: Rules, files: FileSet): (m: Description) {
    map n | n in files :: (|files[n]|, rules.digest(files[n]))
  }

  /** Each file once, as a row. */
  ghost predicate Listed(rules: Rules, files: FileSet, rows: seq<RawRow>) {
    && (forall i :: 0 <= i < |rows| ==> rows[i].Row? && rows[i].filename in files)
    && (forall i :: 0 <= i < |rows| ==>
          rows[i].size == |files[rows[i].filename]| && rows[i].sha256 == rules.digest(files[rows[i].filename]))
    && (forall i, j :: 0 <= i < j < |rows| ==> rows[i].filename != rows[j].filename)
    && forall n :: n in files ==> exists i :: 0 <= i < |rows| && rows[i].filename == n
  }

  method ListFiles(rules: Rules, files: FileSet) returns (rows: seq<RawRow>)
    ensures Listed(rules, files, rows)
  {
    rows := [];
    var todo := files.Keys;
    while todo != {}
      invariant todo <= files.Keys
      invariant forall i :: 0 <= i < |rows| ==> rows[i].Row? && rows[i].filename in files && rows[i].filename !in todo
      invariant forall i :: 0 <= i < |rows| ==>
        rows[i].size == |files[rows[i].filename]| && rows[i].sha256 == rules.digest(files[rows[i].filename])
      invariant forall i, j :: 0 <= i < j < |rows| ==> rows[i].filename != rows[j].filename
      invariant forall n :: n in files && n !in todo ==> exists i :: 0 <= i < |rows| && rows[i].filename == n
      decreases todo
    {
      var n :| n in todo;
      ghost var before := rows;
      rows := rows + [Row(n, |files[n]|, rules.digest(files[n]))];
      todo := todo - {n};
      forall x | x in files && x !in todo
        ensures exists i :: 0 <= i < |rows| && rows[i].filename == x
      {
        if x == n {
          assert rows[|rows| - 1].filename == x;
        } else {
          var i :| 0 <= i < |before| && before[i].filename == x;
          assert rows[i].filename == x;
        }
      }
    }
  }

  /** Files the program can describe: some, with portable bounded members apart in case folding. */
  ghost predicate GoodFiles(rules: Rules, files: FileSet) {
    && files != map[]
    && (forall n :: n in files ==> rules.safe(n) && |files[n]| <= MAX_BYTES)
    && forall n, m :: n in files && m in files && rules.fold(n) == rules.fold(m) ==> n == m
  }

  method InventoryFor(rules: Rules, files: FileSet) returns (r: Option<seq<RawRow>>)
    requires Hashes(rules)
    ensures r.Some? <==> GoodFiles(rules, files)
    ensures r.Some? ==> Sorted(r.value, FilesDescribe(rules, files))
  {
    var rows := ListFiles(rules, files);
    r := ValidateInventory(rules, rows);
    ListedIsGood(rules, files, rows);
    if r.Some? {
      ListedDescribes(rules, files, rows);
    }
  }

  lemma ListedIsGood(rules: Rules, files: FileSet, rows: seq<RawRow>)
    requires Hashes(rules) && Listed(rules, files, rows)
    ensures GoodInventory(rules, rows) <==> GoodFiles(rules, files)
  {
    if GoodInventory(rules, rows) {
      assert rows[0].filename in files;
      forall n | n in files
        ensures rules.safe(n) && |files[n]| <= MAX_BYTES
      {
        var i :| 0 <= i < |rows| && rows[i].filename == n;
      }
      forall n, m | n in files && m in files && rules.fold(n) == rules.fold(m)
        ensures n == m
      {
        var i :| 0 <= i < |rows| && rows[i].filename == n;
        var j :| 0 <= j < |rows| && rows[j].filename == m;
      }
    }
    if GoodFiles(rules, files) {
      var n :| n in files;
      assert rows != [];
    }
  }

  lemma ListedDescribes(rules: Rules, files: FileSet, rows: seq<RawRow>)
    requires Listed(rules, files, rows) && GoodRows(rules, rows)
    ensures Describes(rows) == FilesDescribe(rules, files)
  {
    DescribesRows(rules, rows);
    forall n
      ensures n in Describes(rows) <==> n in FilesDescribe(rules, files)
      ensures n in Describes(rows) ==> n in files && Describes(rows)[n] == FilesDescribe(rules, files)[n]
    {
      if n in Describes(rows) {
        var i :| 0 <= i < |rows| && rows[i].filename == n;
      }
      if n in files {
        var i :| 0 <= i < |rows| && rows[i].filename == n;
      }
    }
  }

  /** Accepts exactly when a good inventory describes the very names, sizes and digests of the files. */
  method CompareInventory(rules: Rules, expected: seq<RawRow>, files: FileSet) returns (r: Option<seq<RawRow>>)
    requires Hashes(rules)
    ensures r.Some? <==> GoodInventory(rules, expected) && Describes(expected) == FilesDescribe(rules, files)
    ensures r.Some? ==> Sorted(r.value, Describes(expected))
  {
    var rows := ValidateInventory(rules, expected);
    if rows.None? {
      return None;
    }
    var actual := InventoryFor(rules, files);
    MatchIsGood(rules, expected, files);
    if actual.None? {
      return None;
    }
    SortedUnique(rows.value, Describes(expected), actual.value, FilesDescribe(rules, files));
    r := if rows == actual then rows else None;
  }

  /** Files that match a good inventory are good themselves. */
  lemma MatchIsGood(rules: Rules, expected: seq<RawRow>, files: FileSet)
    requires GoodInventory(rules, expected)
    ensures Describes(expected) == FilesDescribe(rules, files) ==> GoodFiles(rules, files)
  {
    var m := FilesDescribe(rules, files);
    DescribesRows(rules, expected);
    if Describes(expected) == m {
      assert expected[0].filename in files;
      forall n | n in files
        ensures exists i :: 0 <= i < |expected| && expected[i].filename == n && expected[i].size == |files[n]|
      {
        assert n in m && m[n].0 == |files[n]|;
        var i :| 0 <= i < |expected| && expected[i].filename == n;
      }
    }
  }

  // ----- what a signed inventory determines -----

  /** No two bodies among the two file sets collide. */
  ghost predicate NoCollision(rules: Rules, a: FileSet, b: FileSet) {
    forall n, m :: n in a && m in b && rules.digest(a[n]) == rules.digest(b[m]) ==> a[n] == b[m]
  }

  /** Under collision-free digests, one inventory is met by one file set only. */
  lemma InventoryDetermines(rules: Rules, a: FileSet, b: FileSet)
    requires NoCollision(rules, a, b)
    ensures FilesDescribe(rules, a) == FilesDescribe(rules, b) <==> a == b
  {
    var x, y := FilesDescribe(rules, a), FilesDescribe(rules, b);
    if x == y {
      forall n
        ensures n in a <==> n in b
        ensures n in a ==> n in b && a[n] == b[n]
      {
        assert n in x <==> n in a;
        assert n in y <==> n in b;
        if n in a {
          assert x[n] == y[n];
        }
      }
    }
  }

  // ----- the signed binding -----

  /** "recovery-binding.json" */
  const BINDING: Text := [
    0x72, 0x65, 0x63, 0x6F, 0x76, 0x65, 0x72, 0x79, 0x2D, 0x62, 0x69, 0x6E, 0x64, 0x69, 0x6E, 0x67,
    0x2E, 0x6A, 0x73, 0x6F, 0x6E
  ]

  const SCHEMA := 2

  const CANDIDATE := "sdk-candidate"

  /** What a verified binding hands on. */
  datatype Verified = Verified(schema: int, binding: Binding, filename: Text, digest: string, uri: string,
    source: string)

  /** What the signature vouches for. */
  datatype Evidence = Evidence(subjects: map<Text, string>, uri: string, source: string)

  /** A name as the file-name rule sees it. */
  function Points(s: string): Text {
    seq(|s|, i requires 0 <= i < |s| => s[i] as CodePoint)
  }

  predicate FrozenGood(rules: Rules, a: Attempt) {
    WellFormed(s => rules.safe(Points(s)), a)
  }

  predicate SubjectsGood(rules: Rules, subjects: map<Text, string>) {
    subjects != map[] && forall n :: n in subjects ==> rules.safe(n) && Sha256Text(subjects[n])
  }

  /** The signature covers these bytes, for this source and this invocation. */
  predicate Covers(rules: Rules, bytes: seq<Byte>, evidence: Evidence, a: Attempt)
    requires a.run > 0 && a.number > 0
  {
    && |bytes| <= MAX_BYTES
    && SubjectsGood(rules, evidence.subjects)
    && BINDING in evidence.subjects && evidence.subjects[BINDING] == rules.digest(bytes)
    && evidence.source == a.source && evidence.uri == InvocationUri(a)
  }

  predicate BindingGood(rules: Rules, b: Binding, a: Attempt, artifact: string) {
    && b.schema == SCHEMA && b.kind == CANDIDATE && b.attempt == a && b.artifact == artifact
    && GoodInventory(rules, b.inventory)
    && forall i :: 0 <= i < |b.inventory| ==> b.inventory[i].filename != BINDING
  }

  method VerifySignedBinding(rules: Rules, bytes: seq<Byte>, evidence: Evidence, a: Attempt, artifact: string)
    returns (r: Option<Verified>)
    ensures r.Some? <==>
      && FrozenGood(rules, a) && artifact == ArtifactName(a) && Covers(rules, bytes, evidence, a)
      && rules.decode(bytes).Some? && BindingGood(rules, rules.decode(bytes).value, a, artifact)
    ensures r.Some? ==> r.value.binding == rules.decode(bytes).value && r.value.digest == evidence.subjects[BINDING]
    ensures r.Some? ==> r.value.schema == SCHEMA && r.value.filename == BINDING
    ensures r.Some? ==> r.value.uri == evidence.uri && r.value.source == evidence.source
  {
    var frozen := CheckAttempt(s => rules.safe(Points(s)), a);
    if !frozen || |bytes| > MAX_BYTES || artifact != ArtifactName(a) || evidence.subjects == map[] {
      return None;
    }
    if exists n :: n in evidence.subjects && (!rules.safe(n) || !Sha256Text(evidence.subjects[n])) {
      return None;
    }
    if BINDING !in evidence.subjects || evidence.subjects[BINDING] != rules.digest(bytes) ||
      evidence.source != a.source || evidence.uri != InvocationUri(a) {
      return None;
    }
    var decoded := rules.decode(bytes);
    if decoded.None? {
      return None;
    }
    var b := decoded.value;
    if b.schema != SCHEMA || b.kind != CANDIDATE || b.attempt != a || b.artifact != artifact {
      return None;
    }
    var rows := ValidateInventory(rules, b.inventory);
    if rows.None? {
      return None;
    }
    SameNames(rules, b.inventory, rows.value, BINDING);
    if exists i :: 0 <= i < |rows.value| && rows.value[i].filename == BINDING {
      return None;
    }
    r := Some(Verified(SCHEMA, b, BINDING, rules.digest(bytes), evidence.uri, evidence.source));
  }

  /** Sorting keeps the names. */
  lemma SameNames(rules: Rules, inventory: seq<RawRow>, rows: seq<RawRow>, n: Text)
    requires GoodInventory(rules, inventory) && Sorted(rows, Describes(inventory))
    ensures HasName(rows, n) <==> n in Describes(inventory)
    ensures HasName(rows, n) <==> HasName(inventory, n)
  {
    DescribesRows(rules, inventory);
    if n in Describes(inventory) {
      assert HasName(rows, n);
      DescribedNames(inventory, n);
    }
  }

  /** The literals of the protocol. */
  lemma Literals()
    ensures |BINDING| == |"recovery-binding.json"|
    ensures forall i :: 0 <= i < |BINDING| ==> BINDING[i] == "recovery-binding.json"[i] as int
    ensures SCHEMA == 2 && CANDIDATE == "sdk-candidate" && MAX_BYTES == 1_073_741_824
  {
  }

  // ----- the whole artifact -----

  function Payload(files: FileSet, attestation: Text): (r: FileSet) {
    map n | n in files && n != BINDING && n != attestation :: files[n]
  }

  /** What the check demands of a complete artifact. */
  ghost predicate ArtifactGood(rules: Rules, v: Verified, files: FileSet, attestation: Text) {
    && v.schema == SCHEMA && v.filename == BINDING
    && rules.safe(attestation) && attestation != BINDING
    && BINDING in files && attestation in files
    && files[attestation] != [] && rules.digest(files[BINDING]) == v.digest
      && rules.decode(files[BINDING]) == Some(v.binding)
    && GoodInventory(rules, v.binding.inventory)
    && BINDING !in Describes(v.binding.inventory) && attestation !in Describes(v.binding.inventory)
    && Describes(v.binding.inventory) == FilesDescribe(rules, Payload(files, attestation))
  }

  method VerifyInventory(rules: Rules, v: Verified, files: FileSet, attestation: Text) returns (r: Option<seq<RawRow>>)
    requires Hashes(rules)
    ensures r.Some? <==> ArtifactGood(rules, v, files, attestation)
    ensures r.Some? ==> Sorted(r.value, Describes(v.binding.inventory))
  {
    if v.schema != SCHEMA || v.filename != BINDING || !rules.safe(attestation) || attestation == BINDING {
      return None;
    }
    var rows := ValidateInventory(rules, v.binding.inventory);
    if rows.None? {
      return None;
    }
    var named := set n | n in Names(rows.value);
    forall n
      ensures n in named <==> n in Describes(v.binding.inventory)
    {
      SortedNames(rows.value, Describes(v.binding.inventory));
    }
    KeysMatch(rules, files, attestation, Describes(v.binding.inventory), named);
    if BINDING in named || attestation in named || files.Keys != named + {BINDING, attestation} {
      return None;
    }
    if files[attestation] == [] || rules.digest(files[BINDING]) != v.digest ||
      rules.decode(files[BINDING]) != Some(v.binding) {
      return None;
    }
    SortedIsGood(rules, v.binding.inventory, rows.value);
    r := CompareInventory(rules, rows.value, Payload(files, attestation));
  }

  /** A matching payload means that nothing is missing and nothing is extra. */
  lemma KeysMatch(rules: Rules, files: FileSet, attestation: Text, m: Description, named: set<Text>)
    requires named == m.Keys
    ensures BINDING in files && attestation in files && m == FilesDescribe(rules, Payload(files, attestation)) ==>
      files.Keys == named + {BINDING, attestation}
  {
    var p := Payload(files, attestation);
    if BINDING in files && attestation in files && m == FilesDescribe(rules, p) {
      assert m.Keys == p.Keys;
      assert files.Keys == p.Keys + {BINDING, attestation};
    }
  }

  lemma SortedRowsGood(rules: Rules, inventory: seq<RawRow>, rows: seq<RawRow>)
    requires GoodInventory(rules, inventory) && Sorted(rows, Describes(inventory))
    ensures GoodRows(rules, rows)
  {
    forall i | 0 <= i < |rows|
      ensures rows[i] in inventory
    {
      RowBack(rules, inventory, rows, i);
    }
    forall i, j | 0 <= i < j < |rows|
      ensures rules.fold(rows[i].filename) != rules.fold(rows[j].filename)
    {
      var x :| 0 <= x < |inventory| && inventory[x] == rows[i];
      var y :| 0 <= y < |inventory| && inventory[y] == rows[j];
      LessTotal(rows[i].filename, rows[i].filename);
    }
  }

  /** Validated rows are themselves a good inventory of the same description. */
  lemma SortedIsGood(rules: Rules, inventory: seq<RawRow>, rows: seq<RawRow>)
    requires GoodInventory(rules, inventory) && Sorted(rows, Describes(inventory))
    ensures GoodInventory(rules, rows) && Describes(rows) == Describes(inventory)
  {
    var m := Describes(inventory);
    SortedRowsGood(rules, inventory, rows);
    DescribesRow(rules, inventory, 0);
    assert HasName(rows, inventory[0].filename);
    forall n | n in Describes(rows)
      ensures n in m && Describes(rows)[n] == m[n]
    {
      DescribedNames(rows, n);
      var i :| 0 <= i < |rows| && rows[i].filename == n;
      DescribesRow(rules, rows, i);
    }
    forall n | n in m
      ensures n in Describes(rows)
    {
      assert HasName(rows, n);
      var i :| 0 <= i < |rows| && rows[i].filename == n;
      DescribesRow(rules, rows, i);
    }
  }

  lemma RowBack(rules: Rules, inventory: seq<RawRow>, rows: seq<RawRow>, i: nat)
    requires GoodInventory(rules, inventory) && Sorted(rows, Describes(inventory)) && i < |rows|
    ensures rows[i] in inventory
  {
    DescribedNames(inventory, rows[i].filename);
    var x :| 0 <= x < |inventory| && inventory[x].Row? && inventory[x].filename == rows[i].filename;
    DescribesRow(rules, inventory, x);
    assert inventory[x] == rows[i];
  }

  /**
   * Two artifacts accepted for one signed binding and one attestation name agree on every byte of
   * every member except the attestation itself, as long as no digests collide; and the second is
   * accepted exactly when it so agrees and its attestation is not empty.
   */
  lemma ArtifactsAgree(rules: Rules, v: Verified, a: FileSet, b: FileSet, attestation: Text)
    requires ArtifactGood(rules, v, a, attestation) && NoCollision(rules, a, b)
    ensures ArtifactGood(rules, v, b, attestation) <==>
      && b.Keys == a.Keys && b[attestation] != []
      && forall n :: n in a && n != attestation ==> b[n] == a[n]
  {
    var x, y := Payload(a, attestation), Payload(b, attestation);
    InventoryDetermines(rules, x, y);
    if ArtifactGood(rules, v, b, attestation) {
      forall n
        ensures n in a <==> n in b
        ensures n in a && n != attestation ==> n in b && b[n] == a[n]
      {
        assert n in x <==> n in y;
      }
    }
    if b.Keys == a.Keys && b[attestation] != [] && forall n :: n in a && n != attestation ==> b[n] == a[n] {
      assert x == y;
    }
  }
}
