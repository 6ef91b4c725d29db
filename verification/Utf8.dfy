/**
 * UTF-8 as section 3 of RFC 3629 defines it. The byte strings of two texts compare
 * exactly as their code point strings do, which is what lets a byte-sorting and a
 * code-point-sorting program agree on an order.
 */
module Utf8 {
  import opened Common

  /** Unicode scalar values: every code point but the surrogates. */
  type CodePoint = c: int | 0 <= c < 0xD800 || 0xE000 <= c < 0x110000

  type Text = seq<CodePoint>

  function EncodeOne(c: CodePoint): (r: seq<Byte>)
    ensures 1 <= |r| <= 4
    ensures c < 0x80 ==> r == [c]
    ensures 0x80 <= c ==> forall i :: 0 <= i < |r| ==> 0x80 <= r[i]
  {
    if c < 0x80 then [c]
    else if c < 0x800 then [0xC0 + c / 64, 0x80 + c % 64]
    else if c < 0x10000 then [0xE0 + c / 64 / 64, 0x80 + c / 64 % 64, 0x80 + c % 64]
    else [0xF0 + c / 64 / 64 / 64, 0x80 + c / 64 / 64 % 64, 0x80 + c / 64 % 64, 0x80 + c % 64]
  }

  function Encode(t: Text): (r: seq<Byte>) {
    if t == [] then [] else EncodeOne(t[0]) + Encode(t[1..])
  }

  predicate Continues(b: Byte) {
    0x80 <= b < 0xC0
  }

  /** Append the six bits of continuation byte `b` to the bits read so far. */
  function Push(high: int, b: Byte): (r: int)
    requires Continues(b)
    ensures r / 64 == high && r % 64 == b - 0x80
  {
    high * 64 + (b - 0x80)
  }

  /** Read one scalar value; overlong forms, surrogates and values past U+10FFFF are refused. */
  function DecodeOne(s: seq<Byte>): (r: Option<(CodePoint, seq<Byte>)>)
    ensures r.Some? ==> s == EncodeOne(r.value.0) + r.value.1
  {
    if s == [] then None
    else if s[0] < 0x80 then
      Some((s[0], s[1..]))
    else if 0xC2 <= s[0] < 0xE0 && 2 <= |s| && Continues(s[1]) then
      var c := Push(s[0] - 0xC0, s[1]);
      assert s == [s[0], s[1]] + s[2..];
      Some((c, s[2..]))
    else if 0xE0 <= s[0] < 0xF0 && 3 <= |s| && Continues(s[1]) && Continues(s[2]) then
      var c := Push(Push(s[0] - 0xE0, s[1]), s[2]);
      assert s == [s[0], s[1], s[2]] + s[3..];
      if 0x800 <= c && !(0xD800 <= c < 0xE000) then Some((c, s[3..])) else None
    else if 0xF0 <= s[0] < 0xF5 && 4 <= |s| && Continues(s[1]) && Continues(s[2]) && Continues(s[3]) then
      var c := Push(Push(Push(s[0] - 0xF0, s[1]), s[2]), s[3]);
      assert s == [s[0], s[1], s[2], s[3]] + s[4..];
      if 0x10000 <= c < 0x110000 then Some((c, s[4..])) else None
    else None
  }

  lemma DecodeEncodeOne(c: CodePoint, rest: seq<Byte>)
    ensures DecodeOne(EncodeOne(c) + rest) == Some((c, rest))
  {
    var e := EncodeOne(c);
    var s := e + rest;
    assert s[|e|..] == rest;
    assert forall i :: 0 <= i < |e| ==> s[i] == e[i];
    if c < 0x80 {
    } else if c < 0x800 {
      assert Push(s[0] - 0xC0, s[1]) == c;
    } else if c < 0x10000 {
      assert Push(s[0] - 0xE0, s[1]) == c / 64;
      assert Push(c / 64, s[2]) == c;
    } else {
      assert Push(s[0] - 0xF0, s[1]) == c / 64 / 64;
      assert Push(c / 64 / 64, s[2]) == c / 64;
      assert Push(c / 64, s[3]) == c;
    }
  }

  /** Texts with equal encodings are equal. */
  lemma {:induction false} EncodeInjective(t: Text, u: Text)
    requires Encode(t) == Encode(u)
    ensures t == u
  {
    if t == [] || u == [] {
    } else {
      DecodeEncodeOne(t[0], Encode(t[1..]));
      DecodeEncodeOne(u[0], Encode(u[1..]));
      EncodeInjective(t[1..], u[1..]);
      assert t == [t[0]] + t[1..] && u == [u[0]] + u[1..];
    }
  }

  /** Strict lexicographic order on integer sequences, a proper prefix coming first. */
  predicate Less(a: seq<int>, b: seq<int>) {
    b != [] && (a == [] || a[0] < b[0] || (a[0] == b[0] && Less(a[1..], b[1..])))
  }

  lemma {:induction false} LessTotal(a: seq<int>, b: seq<int>)
    ensures a == b || Less(a, b) || Less(b, a)
    ensures !(Less(a, b) && Less(b, a)) && !Less(a, a)
  {
    if a != [] {
      LessTotal(a[1..], a[1..]);
      if b != [] {
        LessTotal(a[1..], b[1..]);
        assert a == [a[0]] + a[1..] && b == [b[0]] + b[1..];
      }
    }
  }

  lemma {:induction false} LessTransitive(a: seq<int>, b: seq<int>, c: seq<int>)
    requires Less(a, b) && Less(b, c)
    ensures Less(a, c)
  {
    if a != [] && a[0] == b[0] == c[0] {
      LessTransitive(a[1..], b[1..], c[1..]);
    }
  }

  lemma {:induction false} LessCommonPrefix(p: seq<int>, a: seq<int>, b: seq<int>)
    ensures Less(p + a, p + b) == Less(a, b)
  {
    if p == [] {
      assert p + a == a && p + b == b;
    } else {
      assert (p + a)[1..] == p[1..] + a && (p + b)[1..] == p[1..] + b;
      LessCommonPrefix(p[1..], a, b);
    }
  }

  lemma SixBits(c: nat, d: nat)
    requires c <= d
    ensures c / 64 <= d / 64
    ensures c / 64 == d / 64 && c < d ==> c % 64 < d % 64
  {
  }

  /** Encodings of distinct scalar values decide the order at some byte, whatever follows them. */
  lemma EncodeOneOrder(c: CodePoint, d: CodePoint) returns (i: nat)
    requires c < d
    ensures i < |EncodeOne(c)| && i < |EncodeOne(d)|
    ensures EncodeOne(c)[..i] == EncodeOne(d)[..i] && EncodeOne(c)[i] < EncodeOne(d)[i]
  {
    if |EncodeOne(c)| != |EncodeOne(d)| || d < 0x80 {
      i := 0;
    } else if d < 0x800 {
      SixBits(c, d);
      i := if c / 64 != d / 64 then 0 else 1;
    } else if d < 0x10000 {
      i := Order3(c, d);
    } else {
      i := Order4(c, d);
    }
  }

  lemma Order3(c: CodePoint, d: CodePoint) returns (i: nat)
    requires 0x800 <= c < d < 0x10000
    ensures i < 3 && EncodeOne(c)[..i] == EncodeOne(d)[..i] && EncodeOne(c)[i] < EncodeOne(d)[i]
  {
    SixBits(c, d);
    SixBits(c / 64, d / 64);
    i := if c / 64 / 64 != d / 64 / 64 then 0 else if c / 64 != d / 64 then 1 else 2;
  }

  lemma Order4(c: CodePoint, d: CodePoint) returns (i: nat)
    requires 0x10000 <= c < d
    ensures i < 4 && EncodeOne(c)[..i] == EncodeOne(d)[..i] && EncodeOne(c)[i] < EncodeOne(d)[i]
  {
    SixBits(c, d);
    SixBits(c / 64, d / 64);
    SixBits(c / 64 / 64, d / 64 / 64);
    i := if c / 64 / 64 / 64 != d / 64 / 64 / 64 then 0 else if c / 64 / 64 != d / 64 / 64 then 1
         else if c / 64 != d / 64 then 2 else 3;
  }

  /** UTF-8 byte order is code point order (section 1 of RFC 3629). */
  lemma {:induction false} OrderPreserved(t: Text, u: Text)
    ensures Less(Encode(t), Encode(u)) == Less(t, u)
  {
    if t == [] || u == [] {
    } else if t[0] == u[0] {
      LessCommonPrefix(EncodeOne(t[0]), Encode(t[1..]), Encode(u[1..]));
      OrderPreserved(t[1..], u[1..]);
    } else if t[0] < u[0] {
      LessFirst(t, u);
    } else {
      LessFirst(u, t);
      LessTotal(Encode(t), Encode(u));
    }
  }

  lemma LessAt(e: seq<int>, f: seq<int>, i: nat, x: seq<int>, y: seq<int>)
    requires i < |e| && i < |f| && e[..i] == f[..i] && e[i] < f[i]
    ensures Less(e + x, f + y)
  {
    assert e + x == e[..i] + (e[i..] + x);
    assert f + y == e[..i] + (f[i..] + y);
    LessCommonPrefix(e[..i], e[i..] + x, f[i..] + y);
  }

  lemma LessFirst(t: Text, u: Text)
    requires t != [] && u != [] && t[0] < u[0]
    ensures Less(Encode(t), Encode(u))
  {
    var i := EncodeOneOrder(t[0], u[0]);
    LessAt(EncodeOne(t[0]), EncodeOne(u[0]), i, Encode(t[1..]), Encode(u[1..]));
  }
}
