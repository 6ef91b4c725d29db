/**
 * The digest preimage of a file map, as two programs absorb it: one iterates the map
 * in UTF-8 byte order, the other in code point order. Both absorb the same bytes, and
 * those bytes determine the format version and the map.
 */
module IdentityDigest {
  import opened Common
  import opened Utf8

  /** Relative names and the checksums of their contents. */
  type Files = map<Text, Text>

  const U64_LIMIT := 0x1_0000_0000_0000_0000

  /** "luaskills-build-inputs-v" */
  const DOMAIN: seq<Byte> := [
    0x6C, 0x75, 0x61, 0x73, 0x6B, 0x69, 0x6C, 0x6C, 0x73, 0x2D, 0x62, 0x75, 0x69, 0x6C, 0x64, 0x2D,
    0x69, 0x6E, 0x70, 0x75, 0x74, 0x73, 0x2D, 0x76
  ]

  /** Every length can be written in eight bytes. */
  predicate Writable(files: Files) {
    forall name :: name in files ==> |Encode(name)| < U64_LIMIT && |Encode(files[name])| < U64_LIMIT
  }

  // ----- the encoding -----

  /** The low `k` bytes of `n`, most significant first. */
  function BigEndian(n: nat, k: nat): (r: seq<Byte>)
    ensures |r| == k
  {
    if k == 0 then [] else BigEndian(n / 256, k - 1) + [n % 256]
  }

  function FromBigEndian(s: seq<Byte>): nat {
    if s == [] then 0 else FromBigEndian(s[..|s| - 1]) * 256 + s[|s| - 1]
  }

  function Pow256(k: nat): nat {
    if k == 0 then 1 else 256 * Pow256(k - 1)
  }

  lemma {:induction false} BigEndianRoundTrip(n: nat, k: nat)
    requires n < Pow256(k)
    ensures FromBigEndian(BigEndian(n, k)) == n
  {
    if k > 0 {
      var r := BigEndian(n, k);
      assert r[..|r| - 1] == BigEndian(n / 256, k - 1);
      BigEndianRoundTrip(n / 256, k - 1);
    }
  }

  /** A text, preceded by the length of its encoding in eight bytes. */
  function Field(t: Text): (r: seq<Byte>)
    ensures |r| == 8 + |Encode(t)|
  {
    BigEndian(|Encode(t)|, 8) + Encode(t)
  }

  function Entry(files: Files, name: Text): seq<Byte>
    requires name in files
  {
    Field(name) + Field(files[name])
  }

  /** The entries of `files` in the order given. */
  function Entries(files: Files, order: seq<Text>): seq<Byte>
    requires forall x :: x in order ==> x in files
  {
    if order == [] then [] else Entry(files, order[0]) + Entries(files, order[1..])
  }

  function DecimalText(n: nat): (r: seq<Byte>)
    ensures forall i :: 0 <= i < |r| ==> IsDigit(r[i])
  {
    if n < 10 then [0x30 + n] else DecimalText(n / 10) + [0x30 + n % 10]
  }

  function Header(version: nat): seq<Byte> {
    DOMAIN + (DecimalText(version) + [0])
  }

  /** What the domain and the version are as text. */
  lemma HeaderText()
    ensures |DOMAIN| == |"luaskills-build-inputs-v"|
    ensures forall i :: 0 <= i < |DOMAIN| ==> DOMAIN[i] == "luaskills-build-inputs-v"[i] as int
    ensures Header(1) == DOMAIN + [0x31, 0] && Header(12) == DOMAIN + [0x31, 0x32, 0]
  {
    assert DecimalText(12) == DecimalText(1) + [0x32] == [0x31, 0x32];
  }

  function Preimage(version: nat, files: Files, order: seq<Text>): seq<Byte>
    requires forall x :: x in order ==> x in files
  {
    Header(version) + Entries(files, order)
  }

  // ----- iteration orders -----

  ghost predicate Lists(order: seq<Text>, keys: set<Text>) {
    forall x :: x in order <==> x in keys
  }

  predicate ByteLess(a: Text, b: Text) {
    Less(Encode(a), Encode(b))
  }

  /** `order` lists `keys` once each, ascending by the bytes of their encodings. */
  ghost predicate InByteOrder(order: seq<Text>, keys: set<Text>) {
    && Lists(order, keys)
    && forall i, j :: 0 <= i < j < |order| ==> ByteLess(order[i], order[j])
  }

  predicate PairLess(a: (Text, Text), b: (Text, Text)) {
    Less(a.0, b.0) || (a.0 == b.0 && Less(a.1, b.1))
  }

  /** `items` lists the items of `files` once each, ascending as tuples of code point strings. */
  ghost predicate InTupleOrder(items: seq<(Text, Text)>, files: Files) {
    && (forall x :: x in items <==> x in files.Items)
    && forall i, j :: 0 <= i < j < |items| ==> PairLess(items[i], items[j])
  }

  ghost predicate InTextOrder(order: seq<Text>, keys: set<Text>) {
    && Lists(order, keys)
    && forall i, j :: 0 <= i < j < |order| ==> Less(order[i], order[j])
  }

  lemma ByteOrderIsTextOrder(order: seq<Text>, keys: set<Text>)
    ensures InByteOrder(order, keys) <==> InTextOrder(order, keys)
  {
    forall i, j | 0 <= i < j < |order|
      ensures ByteLess(order[i], order[j]) == Less(order[i], order[j])
    {
      OrderPreserved(order[i], order[j]);
    }
  }

  /** Strictly ascending lists with the same elements are the same list. */
  lemma {:induction false} TextOrderUnique(a: seq<Text>, b: seq<Text>, keys: set<Text>)
    requires InTextOrder(a, keys) && InTextOrder(b, keys)
    ensures a == b
    decreases |a|
  {
    if a == [] {
      assert keys == (set x | x in a) == (set x | x in b);
      assert forall i :: 0 <= i < |b| ==> b[i] in keys;
    } else {
      assert a[0] in a;
      assert b != [];
      SameFirst(a, b, keys);
      TailOrder(a, keys);
      TailOrder(b, keys);
      TextOrderUnique(a[1..], b[1..], keys - {a[0]});
      assert a == [a[0]] + a[1..] && b == [b[0]] + b[1..];
    }
  }

  lemma SameFirst(a: seq<Text>, b: seq<Text>, keys: set<Text>)
    requires InTextOrder(a, keys) && InTextOrder(b, keys) && a != [] && b != []
    ensures a[0] == b[0]
  {
    assert a[0] in a && b[0] in b;
    var i :| 0 <= i < |b| && b[i] == a[0];
    var j :| 0 <= j < |a| && a[j] == b[0];
    LessTotal(a[0], b[0]);
  }

  lemma TailOrder(a: seq<Text>, keys: set<Text>)
    requires InTextOrder(a, keys) && a != []
    ensures InTextOrder(a[1..], keys - {a[0]})
  {
    var t := a[1..];
    assert a == [a[0]] + t;
    if a[0] in t {
      var i :| 0 <= i < |t| && t[i] == a[0];
      assert Less(a[0], a[i + 1]);
      LessTotal(a[0], a[0]);
    }
    forall i, j | 0 <= i < j < |t|
      ensures Less(t[i], t[j])
    {
      assert t[i] == a[i + 1] && t[j] == a[j + 1];
    }
  }

  /** Every finite set of names has its ascending list. */
  lemma {:induction false} OrderExists(keys: set<Text>) returns (order: seq<Text>)
    ensures InTextOrder(order, keys)
  {
    if keys == {} {
      order := [];
    } else {
      var k :| k in keys;
      var rest := OrderExists(keys - {k});
      order := InsertOrdered(rest, keys - {k}, k);
      assert keys - {k} + {k} == keys;
    }
  }

  lemma InsertOrdered(a: seq<Text>, keys: set<Text>, k: Text) returns (order: seq<Text>)
    requires InTextOrder(a, keys) && k !in keys
    ensures InTextOrder(order, keys + {k})
    decreases |a|
  {
    if a == [] {
      order := [k];
      assert keys == (set x | x in a);
    } else {
      assert a[0] in a;
      LessTotal(k, a[0]);
      if Less(k, a[0]) {
        order := Prefixed(k, a, keys);
      } else {
        TailOrder(a, keys);
        var t := InsertOrdered(a[1..], keys - {a[0]}, k);
        forall x | x in keys - {a[0]} + {k}
          ensures Less(a[0], x)
        {
          if x != k {
            var i :| 0 <= i < |a| && a[i] == x;
          }
        }
        order := PrefixedBelow(a[0], t, keys - {a[0]} + {k});
        assert keys - {a[0]} + {k} + {a[0]} == keys + {k};
      }
    }
  }

  lemma Prefixed(k: Text, a: seq<Text>, keys: set<Text>) returns (order: seq<Text>)
    requires InTextOrder(a, keys) && a != [] && Less(k, a[0])
    ensures InTextOrder(order, keys + {k})
  {
    forall x | x in keys
      ensures Less(k, x)
    {
      var i :| 0 <= i < |a| && a[i] == x;
      if i > 0 {
        LessTransitive(k, a[0], a[i]);
      }
    }
    order := PrefixedBelow(k, a, keys);
  }

  lemma PrefixedBelow(k: Text, a: seq<Text>, keys: set<Text>) returns (order: seq<Text>)
    requires InTextOrder(a, keys) && forall x :: x in keys ==> Less(k, x)
    ensures InTextOrder(order, keys + {k})
  {
    order := [k] + a;
    forall i, j | 0 <= i < j < |order|
      ensures Less(order[i], order[j])
    {
      assert order[j] == a[j - 1] && a[j - 1] in a;
      assert i > 0 ==> order[i] == a[i - 1];
    }
  }

  // ----- the two encoders -----

  lemma {:induction false} EntriesSnoc(files: Files, order: seq<Text>, name: Text)
    requires name in files && forall x :: x in order ==> x in files
    ensures Entries(files, order + [name]) == Entries(files, order) + Entry(files, name)
  {
    var longer := order + [name];
    if order == [] {
      assert longer[1..] == [];
      assert Entry(files, name) + [] == [] + Entry(files, name);
    } else {
      assert longer[1..] == order[1..] + [name];
      EntriesSnoc(files, order[1..], name);
      Associative(Entry(files, order[0]), Entries(files, order[1..]), Entry(files, name));
    }
  }

  lemma Associative(a: seq<Byte>, b: seq<Byte>, c: seq<Byte>)
    ensures (a + b) + c == a + (b + c)
  {
  }

  /** What one turn of either loop adds. */
  lemma Absorbed(header: seq<Byte>, files: Files, order: seq<Text>, n: nat)
    requires n < |order| && forall x :: x in order ==> x in files
    ensures ((header + Entries(files, order[..n])) + Field(order[n])) + Field(files[order[n]])
         == header + Entries(files, order[..n + 1])
  {
    var done, name := Entries(files, order[..n]), order[n];
    Associative(header + done, Field(name), Field(files[name]));
    Associative(header, done, Entry(files, name));
    EntriesSnoc(files, order[..n], name);
    assert order[..n + 1] == order[..n] + [name];
  }

  /** Absorb a text as both encoders do: eight bytes of length, then its bytes. */
  method AbsorbField(state: seq<Byte>, t: Text) returns (r: seq<Byte>)
    ensures r == state + Field(t)
  {
    r := state + BigEndian(|Encode(t)|, 8);
    r := r + Encode(t);
    Associative(state, BigEndian(|Encode(t)|, 8), Encode(t));
  }

  /** The byte-ordered encoder: `order` is the map's own iteration order. */
  method AbsorbByBytes(files: Files, order: seq<Text>, version: nat) returns (state: seq<Byte>)
    requires InByteOrder(order, files.Keys)
    ensures state == Preimage(version, files, order)
  {
    state := Header(version);
    assert state + [] == state;
    for n := 0 to |order|
      invariant forall x :: x in order ==> x in files
      invariant state == Header(version) + Entries(files, order[..n])
    {
      var name := order[n];
      state := AbsorbField(state, name);
      state := AbsorbField(state, files[name]);
      Absorbed(Header(version), files, order, n);
    }
    assert order[..|order|] == order;
  }

  function Names(items: seq<(Text, Text)>): seq<Text> {
    seq(|items|, i requires 0 <= i < |items| => items[i].0)
  }

  lemma NamesInOrder(items: seq<(Text, Text)>, files: Files)
    requires InTupleOrder(items, files)
    ensures InTextOrder(Names(items), files.Keys)
    ensures forall i :: 0 <= i < |items| ==> items[i].0 in files && files[items[i].0] == items[i].1
  {
    var names := Names(items);
    forall i | 0 <= i < |items|
      ensures items[i].0 in files && files[items[i].0] == items[i].1
    {
      assert items[i] in items;
    }
    forall x | x in files.Keys
      ensures x in names
    {
      assert (x, files[x]) in items;
      var i :| 0 <= i < |items| && items[i] == (x, files[x]);
      assert names[i] == x;
    }
    forall x | x in names
      ensures x in files.Keys
    {
      var i :| 0 <= i < |names| && names[i] == x;
    }
    forall i, j | 0 <= i < j < |names|
      ensures Less(names[i], names[j])
    {
      assert PairLess(items[i], items[j]);
      LessTotal(items[i].1, items[i].1);
    }
  }

  /** The code-point-ordered encoder: `items` is the sorted list of pairs it loops over. */
  method AbsorbByCodePoints(files: Files, items: seq<(Text, Text)>, version: nat) returns (state: seq<Byte>)
    requires InTupleOrder(items, files)
    ensures InTextOrder(Names(items), files.Keys)
    ensures state == Preimage(version, files, Names(items))
  {
    NamesInOrder(items, files);
    ghost var order := Names(items);
    state := Header(version);
    assert state + [] == state;
    for n := 0 to |items|
      invariant state == Header(version) + Entries(files, order[..n])
    {
      var (name, checksum) := items[n];
      state := AbsorbField(state, name);
      state := AbsorbField(state, checksum);
      Absorbed(Header(version), files, order, n);
    }
    assert order[..|items|] == order;
  }

  /** Whatever map it is, the two encoders absorb the same bytes. */
  lemma EncodersAgree(version: nat, files: Files, order: seq<Text>, items: seq<(Text, Text)>)
    requires InByteOrder(order, files.Keys) && InTupleOrder(items, files)
    ensures order == Names(items)
    ensures Preimage(version, files, order) == Preimage(version, files, Names(items))
  {
    ByteOrderIsTextOrder(order, files.Keys);
    NamesInOrder(items, files);
    TextOrderUnique(order, Names(items), files.Keys);
  }

  // ----- unique decoding -----

  lemma Pow256Of8()
    ensures Pow256(8) == U64_LIMIT
  {
    assert Pow256(2) == 65536;
    assert Pow256(4) == 65536 * 65536;
    assert Pow256(6) == 65536 * 65536 * 65536;
  }

  lemma FieldInjective(a: Text, x: seq<Byte>, b: Text, y: seq<Byte>)
    requires |Encode(a)| < U64_LIMIT && |Encode(b)| < U64_LIMIT
    requires Field(a) + x == Field(b) + y
    ensures a == b && x == y
  {
    var s := Field(a) + x;
    assert s[..8] == BigEndian(|Encode(a)|, 8) == BigEndian(|Encode(b)|, 8);
    Pow256Of8();
    BigEndianRoundTrip(|Encode(a)|, 8);
    BigEndianRoundTrip(|Encode(b)|, 8);
    var n := 8 + |Encode(a)|;
    assert s[8..n] == Encode(a) && s[8..n] == Encode(b);
    EncodeInjective(a, b);
    assert s[n..] == x && s[n..] == y;
  }

  lemma {:induction false} EntriesInjective(f: Files, a: seq<Text>, g: Files, b: seq<Text>)
    requires Writable(f) && Writable(g)
    requires (forall x :: x in a ==> x in f) && (forall x :: x in b ==> x in g)
    requires Entries(f, a) == Entries(g, b)
    ensures a == b && forall x :: x in a ==> f[x] == g[x]
  {
    if a == [] || b == [] {
    } else {
      var x, y := Entries(f, a[1..]), Entries(g, b[1..]);
      Associative(Field(a[0]), Field(f[a[0]]), x);
      Associative(Field(b[0]), Field(g[b[0]]), y);
      FieldInjective(a[0], Field(f[a[0]]) + x, b[0], Field(g[b[0]]) + y);
      FieldInjective(f[a[0]], x, g[b[0]], y);
      EntriesInjective(f, a[1..], g, b[1..]);
      assert a == [a[0]] + a[1..] && b == [b[0]] + b[1..];
    }
  }

  function FromDecimal(s: seq<int>): int {
    if s == [] then 0 else FromDecimal(s[..|s| - 1]) * 10 + (s[|s| - 1] - 0x30)
  }

  lemma {:induction false} DecimalRoundTrip(n: nat)
    ensures FromDecimal(DecimalText(n)) == n
  {
    var r := DecimalText(n);
    if n >= 10 {
      assert r[..|r| - 1] == DecimalText(n / 10);
      DecimalRoundTrip(n / 10);
    }
  }

  lemma HeaderInjective(v: nat, x: seq<Byte>, w: nat, y: seq<Byte>)
    requires Header(v) + x == Header(w) + y
    ensures v == w && x == y
  {
    var s := Header(v) + x;
    var a, b := DecimalText(v), DecimalText(w);
    assert s[|DOMAIN|..] == a + ([0] + x);
    assert s[|DOMAIN|..] == b + ([0] + y);
    SpanUnique(IsDigit, a, [0] + x);
    SpanUnique(IsDigit, b, [0] + y);
    DecimalRoundTrip(v);
    DecimalRoundTrip(w);
    assert ([0] + x)[1..] == x && ([0] + y)[1..] == y;
  }

  /** Equal preimages come from the same format version and the same file map. */
  lemma PreimageInjective(v: nat, f: Files, a: seq<Text>, w: nat, g: Files, b: seq<Text>)
    requires Writable(f) && Writable(g)
    requires InTextOrder(a, f.Keys) && InTextOrder(b, g.Keys)
    requires Preimage(v, f, a) == Preimage(w, g, b)
    ensures v == w && f == g
  {
    HeaderInjective(v, Entries(f, a), w, Entries(g, b));
    EntriesInjective(f, a, g, b);
    assert forall x :: x in f.Keys <==> x in g.Keys;
    assert f.Keys == g.Keys;
  }
}
